/**
 * `unpack`: read the header at the start of the archive, then visit its entries in key order and
 * decode the value each one points at, unwrapping compression envelopes.  `UnpackArchive` states
 * what the whole loop produces; the method `Unpack` is the loop itself.
 */
module Unpacking {
  import opened Wrappers
  import opened Bytes
  import opened MsgPack
  import opened KeyOrder
  import opened Archive

  /** The bytes a reader positioned at `pos` sees: nothing at all once `pos` is past the end. */
  function Tail(archive: seq<byte>, pos: nat): seq<byte>
  {
    if pos <= |archive| then archive[pos..] else []
  }

  /** Decode the header from the start of the file; the body starts where the decoder stopped. */
  function ReadHeader(c: Codecs, archive: seq<byte>): Result<(InfoHeader, nat), UnpackError>
  {
    match c.decodeHeader(archive)
    case None => Failure(HeaderUnreadable)
    case Some((header, bodyStart)) => Success((header, bodyStart))
  }

  /**
   * The value an entry points at: seek to body start plus the entry's offset (64-bit arithmetic,
   * no wrap-around) and decode from there to the end of the file.  The entry's length is not used.
   */
  function ReadEntry(c: Codecs, archive: seq<byte>, bodyStart: nat, e: HeaderEntry): Result<Value, UnpackError>
  {
    DecodeStored(c, Tail(archive, bodyStart + e.offset))
  }

  /** What `unpack` leaves behind: the documents it wrote, in order, and the failure that stopped it. */
  datatype Outcome = Outcome(written: seq<Document>, failure: Option<UnpackError>)

  /** `prefix` written before everything in `o`. */
  function After(prefix: seq<Document>, o: Outcome): Outcome
  {
    Outcome(prefix + o.written, o.failure)
  }

  lemma AfterNothing(o: Outcome)
    ensures After([], o) == o
  {
    assert [] + o.written == o.written;
  }

  lemma AfterAfter(prefix: seq<Document>, d: Document, o: Outcome)
    ensures After(prefix, After([d], o)) == After(prefix + [d], o)
  {
    assert prefix + ([d] + o.written) == (prefix + [d]) + o.written;
  }

  /**
   * Visiting `names` in order: each entry is read and written in turn, and the first entry that
   * cannot be read stops the loop, with the documents before it already written.
   */
  function UnpackEntries(c: Codecs, archive: seq<byte>, bodyStart: nat, header: InfoHeader,
                         names: seq<string>): (r: Outcome)
    requires forall n :: n in names ==> n in header
    ensures |r.written| <= |names|
    ensures r.failure.None? ==> |r.written| == |names|
    ensures forall i :: 0 <= i < |r.written| ==>
      r.written[i].name == names[i] && ReadEntry(c, archive, bodyStart, header[names[i]]) == Success(r.written[i].value)
    ensures r.failure.Some? ==>
      && |r.written| < |names|
      && ReadEntry(c, archive, bodyStart, header[names[|r.written|]]) == Failure(r.failure.value)
  {
    if names == [] then Outcome([], None)
    else
      match ReadEntry(c, archive, bodyStart, header[names[0]])
      case Failure(e) => Outcome([], Some(e))
      case Success(v) => After([Document(names[0], v)], UnpackEntries(c, archive, bodyStart, header, names[1..]))
  }

  /** The whole of `unpack` on the file's bytes: header first, then every key in map order. */
  ghost function UnpackArchive(c: Codecs, archive: seq<byte>): Outcome
  {
    match ReadHeader(c, archive)
    case Failure(e) => Outcome([], Some(e))
    case Success((header, bodyStart)) =>
      UnpackEntries(c, archive, bodyStart, header, SortedKeys(header.Keys))
  }

  /** Documents named after a prefix of an ascending list of keys are themselves ascending. */
  lemma WrittenFollowKeys(keys: seq<string>, written: seq<Document>)
    requires Ascending(keys)
    requires |written| <= |keys|
    requires forall i :: 0 <= i < |written| ==> written[i].name == keys[i]
    ensures forall i, j :: 0 <= i < j < |written| ==> Below(written[i].name, written[j].name)
  {
    forall i, j | 0 <= i < j < |written|
      ensures Below(written[i].name, written[j].name)
    {
      assert written[i].name == keys[i] && written[j].name == keys[j];
    }
  }

  /**
   * The order of the output: a readable header yields documents whose names are the header's keys
   * in strictly ascending map order, each key at most once; all of them when nothing fails, and
   * nothing at all when the header cannot be read.
   */
  lemma UnpackWritesInKeyOrder(c: Codecs, archive: seq<byte>)
    ensures ReadHeader(c, archive).Failure? ==> UnpackArchive(c, archive) == Outcome([], Some(HeaderUnreadable))
    ensures ReadHeader(c, archive).Success? ==>
      var header := ReadHeader(c, archive).value.0;
      var o := UnpackArchive(c, archive);
      && (forall i :: 0 <= i < |o.written| ==> o.written[i].name in header)
      && (forall i, j :: 0 <= i < j < |o.written| ==> Below(o.written[i].name, o.written[j].name))
      && (o.failure.None? ==> |o.written| == |header|)
  {
    if ReadHeader(c, archive).Success? {
      var (header, bodyStart) := ReadHeader(c, archive).value;
      var keys := SortedKeys(header.Keys);
      var o := UnpackEntries(c, archive, bodyStart, header, keys);
      assert o == UnpackArchive(c, archive);
      WrittenFollowKeys(keys, o.written);
    }
  }

  /** Only an entry's offset decides what is read for it; its recorded length plays no part. */
  lemma ReadEntryIgnoresLength(c: Codecs, archive: seq<byte>, bodyStart: nat, offset: u32, length1: u32, length2: u32)
    ensures ReadEntry(c, archive, bodyStart, HeaderEntry(offset, length1)) ==
            ReadEntry(c, archive, bodyStart, HeaderEntry(offset, length2))
  {
  }

  /** A header written by the packer is read back, and the body starts right after its encoding. */
  lemma HeaderOfArchive(c: Codecs, header: InfoHeader, body: seq<byte>)
    requires PrefixCodec(c.encodeHeader, c.decodeHeader)
    ensures ReadHeader(c, c.encodeHeader(header) + body) == Success((header, |c.encodeHeader(header)|))
  {
  }

  /** One round of the loop: the least remaining key is visited first, then the others. */
  lemma VisitLeast(c: Codecs, archive: seq<byte>, bodyStart: nat, header: InfoHeader,
                   remaining: set<string>, name: string)
    requires remaining <= header.Keys
    requires IsLeast(name, remaining)
    ensures var rest := UnpackEntries(c, archive, bodyStart, header, SortedKeys(remaining - {name}));
      UnpackEntries(c, archive, bodyStart, header, SortedKeys(remaining)) ==
        match ReadEntry(c, archive, bodyStart, header[name])
        case Failure(e) => Outcome([], Some(e))
        case Success(v) => After([Document(name, v)], rest)
  {
    LeastUnique(remaining, name, Least(remaining));
    var keys := SortedKeys(remaining);
    assert keys[0] == name && keys[1..] == SortedKeys(remaining - {name});
  }

  /**
   * The `unpack` loop over the `BTreeMap`: the keys still to visit are a set, and each round
   * takes the least of them, which is the order the map iterates in.
   */
  method Unpack(c: Codecs, archive: seq<byte>) returns (written: seq<Document>, failure: Option<UnpackError>)
    ensures Outcome(written, failure) == UnpackArchive(c, archive)
  {
    var read := ReadHeader(c, archive);
    if read.Failure? {
      return [], Some(read.error);
    }
    var (header, bodyStart) := read.value;
    var remaining := header.Keys;
    written, failure := [], None;
    AfterNothing(UnpackArchive(c, archive));
    while remaining != {}
      invariant remaining <= header.Keys
      invariant UnpackArchive(c, archive) ==
        After(written, UnpackEntries(c, archive, bodyStart, header, SortedKeys(remaining)))
      decreases |remaining|
    {
      LeastExists(remaining);
      var name :| IsLeast(name, remaining);
      VisitLeast(c, archive, bodyStart, header, remaining, name);
      var data := ReadEntry(c, archive, bodyStart, header[name]);
      if data.Failure? {
        return written, Some(data.error);
      }
      AfterAfter(written, Document(name, data.value),
                 UnpackEntries(c, archive, bodyStart, header, SortedKeys(remaining - {name})));
      written := written + [Document(name, data.value)];
      remaining := remaining - {name};
    }
    assert written + [] == written;
  }
}
