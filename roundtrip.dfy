/**
 * Packing a directory and unpacking the archive: every stem comes back once, in key order, with
 * the value of the last document of that stem the packer saw.
 */
module RoundTrip {
  import opened Wrappers
  import opened Bytes
  import opened MsgPack
  import opened KeyOrder
  import opened Archive
  import opened Packing
  import opened Unpacking

  /** The value the archive keeps for `name`: that of the last document so named. */
  function LastValue(docs: seq<Document>, name: string): Value
    requires name in Names(docs)
  {
    docs[LastIndex(docs, name)].value
  }

  /** One document per name in `names`, carrying the value the archive keeps for it. */
  function Latest(docs: seq<Document>, names: seq<string>): (r: seq<Document>)
    requires forall n :: n in names ==> n in Names(docs)
    ensures |r| == |names|
    ensures forall i :: 0 <= i < |r| ==> r[i] == Document(names[i], LastValue(docs, names[i]))
  {
    seq(|names|, i requires 0 <= i < |names| => Document(names[i], LastValue(docs, names[i])))
  }

  /** A document the packer can store so that it reads back: not itself an extension, and short
   *  enough for `as i32` to keep its size when it is compressed. */
  ghost predicate Restorable(c: Codecs, doCompress: bool, v: Value)
  {
    && !v.Ext?
    && (doCompress && |c.encodeValue(v)| > COMPRESS_THRESHOLD ==> |c.encodeValue(v)| < I32_LIMIT)
  }

  /** What the packer needs for its archive to read back: restorable documents and a body whose
   *  offsets do not wrap. */
  ghost predicate Packable(c: Codecs, doCompress: bool, docs: seq<Document>)
  {
    && (forall i :: 0 <= i < |docs| ==> Restorable(c, doCompress, docs[i].value))
    && |PackAll(c, doCompress, docs).body| < U32_LIMIT
  }

  /** Past the header, the archive reads as the body. */
  lemma TailOfArchive(c: Codecs, s: PackState, before: nat)
    requires before <= |s.body|
    ensures Tail(ArchiveBytes(c, s), |c.encodeHeader(s.header)| + before) == s.body[before..]
  {
  }

  /** Decoding from a position that holds a stored value gives back that value. */
  lemma ReadsStored(c: Codecs, archive: seq<byte>, bodyStart: nat, e: HeaderEntry,
                    d: Document, doCompress: bool, rest: seq<byte>)
    requires Sound(c)
    requires Restorable(c, doCompress, d.value)
    requires Tail(archive, bodyStart + e.offset) == StoredOf(c, doCompress, d) + rest
    ensures ReadEntry(c, archive, bodyStart, e) == Success(d.value)
  {
    DecodeStoredInvertsStored(c, d.value, doCompress, rest);
  }

  /**
   * In a packed archive, reading from the entry for `name` starts exactly at the bytes stored for
   * the last document of that name; `rest` is what follows them.
   */
  lemma EntryStartsAtStored(c: Codecs, doCompress: bool, docs: seq<Document>, name: string)
      returns (rest: seq<byte>)
    requires |PackAll(c, doCompress, docs).body| < U32_LIMIT
    requires name in Names(docs)
    ensures var s := PackAll(c, doCompress, docs);
      && name in s.header
      && Tail(ArchiveBytes(c, s), |c.encodeHeader(s.header)| + s.header[name].offset) ==
         StoredOf(c, doCompress, docs[LastIndex(docs, name)]) + rest
  {
    var s := PackAll(c, doCompress, docs);
    var k := LastIndex(docs, name);
    var before := |PackAll(c, doCompress, docs[..k]).body|;
    var stored := StoredOf(c, doCompress, docs[k]);
    EntryLocatesStored(c, doCompress, docs, name);
    assert s.header[name].offset == before;
    rest := s.body[before + |stored|..];
    assert s.body[before..] == stored + rest;
    TailOfArchive(c, s, before);
  }

  /** Reading the entry for `name` in a packed archive decodes the last value stored under it. */
  lemma ReadEntryOfPacked(c: Codecs, doCompress: bool, docs: seq<Document>, name: string)
    requires Sound(c)
    requires Packable(c, doCompress, docs)
    requires name in Names(docs)
    ensures var s := PackAll(c, doCompress, docs);
      && name in s.header
      && ReadEntry(c, ArchiveBytes(c, s), |c.encodeHeader(s.header)|, s.header[name]) == Success(LastValue(docs, name))
  {
    var s := PackAll(c, doCompress, docs);
    var k := LastIndex(docs, name);
    var rest := EntryStartsAtStored(c, doCompress, docs, name);
    assert Restorable(c, doCompress, docs[k].value);
    ReadsStored(c, ArchiveBytes(c, s), |c.encodeHeader(s.header)|, s.header[name], docs[k], doCompress, rest);
  }

  /** Visiting names whose entries all read back: the loop writes each of them, in that order. */
  lemma {:induction false} EntriesReadBack(c: Codecs, archive: seq<byte>, bodyStart: nat, header: InfoHeader,
                                           docs: seq<Document>, names: seq<string>)
    requires forall n :: n in names ==> n in Names(docs) && n in header
    requires forall n :: n in names ==> ReadEntry(c, archive, bodyStart, header[n]) == Success(LastValue(docs, n))
    ensures UnpackEntries(c, archive, bodyStart, header, names) == Outcome(Latest(docs, names), None)
    decreases |names|
  {
    if names != [] {
      EntriesReadBack(c, archive, bodyStart, header, docs, names[1..]);
      assert Latest(docs, names) == [Document(names[0], LastValue(docs, names[0]))] + Latest(docs, names[1..]);
    }
  }

  /**
   * The round trip: unpacking the bytes `repack` writes yields, without failure, one document per
   * distinct stem, in ascending key order, each with the value of the last document of that stem.
   */
  lemma PackThenUnpack(c: Codecs, doCompress: bool, docs: seq<Document>)
    requires Sound(c)
    requires Packable(c, doCompress, docs)
    ensures UnpackArchive(c, ArchiveBytes(c, PackAll(c, doCompress, docs))) ==
      Outcome(Latest(docs, SortedKeys(Names(docs))), None)
  {
    var s := PackAll(c, doCompress, docs);
    HeaderOfArchive(c, s.header, s.body);
    HeaderKeysAreNames(c, doCompress, docs);
    forall n | n in Names(docs)
      ensures ReadEntry(c, ArchiveBytes(c, s), |c.encodeHeader(s.header)|, s.header[n]) == Success(LastValue(docs, n))
    {
      ReadEntryOfPacked(c, doCompress, docs, n);
    }
    EntriesReadBack(c, ArchiveBytes(c, s), |c.encodeHeader(s.header)|, s.header, docs, SortedKeys(Names(docs)));
  }

  /** The same through the methods: what `Unpack` returns for the bytes `Repack` produced. */
  method RepackThenUnpack(c: Codecs, docs: seq<Document>, doCompress: bool)
      returns (written: seq<Document>, failure: Option<UnpackError>)
    requires Sound(c)
    requires Packable(c, doCompress, docs)
    ensures failure == None
    ensures written == Latest(docs, SortedKeys(Names(docs)))
  {
    var archive := Repack(c, docs, doCompress);
    written, failure := Unpack(c, archive);
    PackThenUnpack(c, doCompress, docs);
  }
}
