/**
 * `repack`: the loop that turns the documents of a directory into a header and a body, and the
 * archive it writes.  `Step` and `PackAll` specify the loop; the `Packer` class and `Repack` are the
 * loop itself, updating the header map, the body buffer and the running offset in place.
 */
module Packing {
  import opened Bytes
  import opened MsgPack
  import opened Archive

  /** The loop's three variables: `header`, `body` and `offset`. */
  datatype PackState = PackState(header: InfoHeader, body: seq<byte>, offset: u32)

  const Start: PackState := PackState(map[], [], 0)

  /** The bytes stored for one document. */
  function StoredOf(c: Codecs, doCompress: bool, d: Document): seq<byte>
  {
    Stored(c, c.encodeValue(d.value), doCompress)
  }

  /**
   * One iteration: insert the entry under the stem (replacing an earlier one), append the stored
   * bytes and advance the offset, both lengths and the offset being `u32`s that wrap around.
   */
  function Step(c: Codecs, doCompress: bool, s: PackState, d: Document): PackState
  {
    var packed := StoredOf(c, doCompress, d);
    PackState(s.header[d.name := HeaderEntry(s.offset, AsU32(|packed|))],
              s.body + packed,
              AsU32(s.offset + AsU32(|packed|)))
  }

  /**
   * What one iteration changes: the stored bytes are appended after the untouched earlier body;
   * the stem gets an entry at the old offset, replacing any earlier entry of that stem (the last
   * insert wins, its old bytes stay in the body); every other entry is untouched.
   */
  lemma StepEffect(c: Codecs, doCompress: bool, s: PackState, d: Document)
    ensures var r := Step(c, doCompress, s, d);
      && r.body == s.body + StoredOf(c, doCompress, d)
      && r.body[..|s.body|] == s.body
      && r.header.Keys == s.header.Keys + {d.name}
      && r.header[d.name] == HeaderEntry(s.offset, AsU32(|StoredOf(c, doCompress, d)|))
      && forall k :: k in s.header && k != d.name ==> r.header[k] == s.header[k]
  {
    var r := Step(c, doCompress, s, d);
    assert r.body[..|s.body|] == s.body;
  }

  /** Each iteration keeps the running offset equal to the body length modulo 2^32. */
  lemma StepKeepsOffset(c: Codecs, doCompress: bool, s: PackState, d: Document)
    requires s.offset == AsU32(|s.body|)
    ensures Step(c, doCompress, s, d).offset == AsU32(|Step(c, doCompress, s, d).body|)
  {
    AsU32Add(|s.body|, |StoredOf(c, doCompress, d)|);
  }

  /** The state after the loop has processed `docs`, in that order. */
  function PackAll(c: Codecs, doCompress: bool, docs: seq<Document>): PackState
    decreases |docs|
  {
    if docs == [] then Start
    else Step(c, doCompress, PackAll(c, doCompress, docs[..|docs| - 1]), docs[|docs| - 1])
  }

  lemma PackAllAppend(c: Codecs, doCompress: bool, docs: seq<Document>, d: Document)
    ensures PackAll(c, doCompress, docs + [d]) == Step(c, doCompress, PackAll(c, doCompress, docs), d)
  {
    assert (docs + [d])[..|docs|] == docs;
  }

  /** What `repack` writes: the encoded header immediately followed by the body. */
  function ArchiveBytes(c: Codecs, s: PackState): seq<byte>
  {
    c.encodeHeader(s.header) + s.body
  }

  function Names(docs: seq<Document>): set<string>
  {
    set i | 0 <= i < |docs| :: docs[i].name
  }

  /** The position of the last document called `name`: the one whose entry survives. */
  function LastIndex(docs: seq<Document>, name: string): (k: nat)
    requires name in Names(docs)
    ensures k < |docs| && docs[k].name == name
    ensures forall j :: k < j < |docs| ==> docs[j].name != name
    decreases |docs|
  {
    var n := |docs| - 1;
    if docs[n].name == name then n
    else
      assert name in Names(docs[..n]) by {
        var i :| 0 <= i < |docs| && docs[i].name == name;
        assert docs[..n][i].name == name;
      }
      LastIndex(docs[..n], name)
  }

  /** The running offset always equals the body length modulo 2^32, and equals it outright below 4 GiB. */
  lemma {:induction false} OffsetTracksBody(c: Codecs, doCompress: bool, docs: seq<Document>)
    ensures PackAll(c, doCompress, docs).offset == AsU32(|PackAll(c, doCompress, docs).body|)
    ensures |PackAll(c, doCompress, docs).body| < U32_LIMIT ==>
      PackAll(c, doCompress, docs).offset == |PackAll(c, doCompress, docs).body|
    decreases |docs|
  {
    if docs != [] {
      OffsetTracksBody(c, doCompress, docs[..|docs| - 1]);
      StepKeepsOffset(c, doCompress, PackAll(c, doCompress, docs[..|docs| - 1]), docs[|docs| - 1]);
    }
  }

  lemma PrefixTransitive(a: seq<byte>, b: seq<byte>, c: seq<byte>)
    requires a <= b && b <= c
    ensures a <= c
  {
    assert c[..|a|] == b[..|a|];
  }

  /** Later iterations only append: the body after `docs[..i]` is a prefix of the final body. */
  lemma {:induction false} BodyOnlyGrows(c: Codecs, doCompress: bool, docs: seq<Document>, i: nat)
    requires i <= |docs|
    ensures PackAll(c, doCompress, docs[..i]).body <= PackAll(c, doCompress, docs).body
    decreases |docs|
  {
    if i < |docs| {
      var n := |docs| - 1;
      assert docs[..n][..i] == docs[..i];
      BodyOnlyGrows(c, doCompress, docs[..n], i);
      var prev := PackAll(c, doCompress, docs[..n]);
      assert prev.body <= Step(c, doCompress, prev, docs[n]).body;
      PrefixTransitive(PackAll(c, doCompress, docs[..i]).body, prev.body, PackAll(c, doCompress, docs).body);
    } else {
      assert docs[..i] == docs;
    }
  }

  lemma NamesOfPrefix(docs: seq<Document>)
    requires docs != []
    ensures Names(docs) == Names(docs[..|docs| - 1]) + {docs[|docs| - 1].name}
  {
    var n := |docs| - 1;
    forall x | x in Names(docs) ensures x in Names(docs[..n]) + {docs[n].name} {
      var i :| 0 <= i < |docs| && docs[i].name == x;
      if i < n { assert docs[..n][i].name == x; }
    }
    forall x | x in Names(docs[..n]) ensures x in Names(docs) {
      var i :| 0 <= i < n && docs[..n][i].name == x;
      assert docs[i].name == x;
    }
  }

  /** The header has exactly one entry per distinct stem. */
  lemma {:induction false} HeaderKeysAreNames(c: Codecs, doCompress: bool, docs: seq<Document>)
    ensures PackAll(c, doCompress, docs).header.Keys == Names(docs)
    decreases |docs|
  {
    if docs != [] {
      HeaderKeysAreNames(c, doCompress, docs[..|docs| - 1]);
      StepEffect(c, doCompress, PackAll(c, doCompress, docs[..|docs| - 1]), docs[|docs| - 1]);
      NamesOfPrefix(docs);
    }
  }

  /** `s` holds an entry for `name` that points at `stored`, found `before` bytes into the body. */
  ghost predicate Locates(s: PackState, name: string, before: nat, stored: seq<byte>)
  {
    && name in s.header
    && s.header[name] == HeaderEntry(AsU32(before), AsU32(|stored|))
    && before + |stored| <= |s.body|
    && s.body[before..before + |stored|] == stored
  }

  lemma StepLocatesNew(c: Codecs, doCompress: bool, s: PackState, d: Document)
    requires s.offset == AsU32(|s.body|)
    ensures Locates(Step(c, doCompress, s, d), d.name, |s.body|, StoredOf(c, doCompress, d))
  {
    var r := Step(c, doCompress, s, d);
    StepEffect(c, doCompress, s, d);
    assert r.body[|s.body|..|s.body| + |StoredOf(c, doCompress, d)|] == r.body[|s.body|..];
  }

  lemma StepKeepsOld(c: Codecs, doCompress: bool, s: PackState, d: Document, name: string, before: nat, stored: seq<byte>)
    requires Locates(s, name, before, stored)
    requires name != d.name
    ensures Locates(Step(c, doCompress, s, d), name, before, stored)
  {
    var r := Step(c, doCompress, s, d);
    StepEffect(c, doCompress, s, d);
    assert r.body[before..before + |stored|] == s.body[before..before + |stored|];
  }

  /**
   * The entry under `name` belongs to the last document of that name: its offset is the body
   * length before that document was appended and its length is the stored length (both as `u32`),
   * the range lies inside the body, and the body bytes at that place are exactly what was stored.
   */
  lemma {:induction false} EntryLocatesStored(c: Codecs, doCompress: bool, docs: seq<Document>, name: string)
    requires name in Names(docs)
    ensures var k := LastIndex(docs, name);
      Locates(PackAll(c, doCompress, docs), name,
              |PackAll(c, doCompress, docs[..k]).body|, StoredOf(c, doCompress, docs[k]))
    decreases |docs|
  {
    var n := |docs| - 1;
    var prev := PackAll(c, doCompress, docs[..n]);
    var k := LastIndex(docs, name);
    if docs[n].name == name {
      OffsetTracksBody(c, doCompress, docs[..n]);
      StepLocatesNew(c, doCompress, prev, docs[n]);
    } else {
      NamesOfPrefix(docs);
      assert k == LastIndex(docs[..n], name);
      EntryLocatesStored(c, doCompress, docs[..n], name);
      assert docs[..n][..k] == docs[..k];
      StepKeepsOld(c, doCompress, prev, docs[n], name,
                   |PackAll(c, doCompress, docs[..k]).body|, StoredOf(c, doCompress, docs[k]));
    }
  }

  /** Document `i`'s entry runs from the body length before it to the body length after it. */
  ghost predicate OwnRange(c: Codecs, doCompress: bool, docs: seq<Document>, i: nat)
    requires i < |docs|
  {
    var e := PackAll(c, doCompress, docs).header;
    && docs[i].name in e
    && e[docs[i].name].offset == |PackAll(c, doCompress, docs[..i]).body|
    && e[docs[i].name].offset + e[docs[i].name].length == |PackAll(c, doCompress, docs[..i + 1]).body|
  }

  lemma LastIndexOfDistinct(docs: seq<Document>, i: nat)
    requires forall i, j :: 0 <= i < j < |docs| ==> docs[i].name != docs[j].name
    requires i < |docs|
    ensures docs[i].name in Names(docs) && LastIndex(docs, docs[i].name) == i
  {
    assert docs[i].name in Names(docs);
  }

  lemma BodyAfter(c: Codecs, doCompress: bool, docs: seq<Document>, i: nat)
    requires i < |docs|
    ensures PackAll(c, doCompress, docs[..i + 1]).body == PackAll(c, doCompress, docs[..i]).body + StoredOf(c, doCompress, docs[i])
  {
    assert docs[..i + 1] == docs[..i] + [docs[i]];
    PackAllAppend(c, doCompress, docs[..i], docs[i]);
  }

  lemma EntryOfSurvivor(c: Codecs, doCompress: bool, docs: seq<Document>, i: nat)
    requires i < |docs|
    requires docs[i].name in Names(docs) && LastIndex(docs, docs[i].name) == i
    requires |PackAll(c, doCompress, docs).body| < U32_LIMIT
    ensures OwnRange(c, doCompress, docs, i)
  {
    EntryLocatesStored(c, doCompress, docs, docs[i].name);
    BodyAfter(c, doCompress, docs, i);
  }

  lemma EntryOfDistinct(c: Codecs, doCompress: bool, docs: seq<Document>, i: nat)
    requires forall i, j :: 0 <= i < j < |docs| ==> docs[i].name != docs[j].name
    requires |PackAll(c, doCompress, docs).body| < U32_LIMIT
    requires i < |docs|
    ensures OwnRange(c, doCompress, docs, i)
  {
    LastIndexOfDistinct(docs, i);
    EntryOfSurvivor(c, doCompress, docs, i);
  }

  /**
   * With distinct stems and a body below 4 GiB, the entries tile the body in arrival order: the
   * entry of document i starts where document i-1's ends, the first at 0 and the last at the end.
   */
  lemma RangesTileBody(c: Codecs, doCompress: bool, docs: seq<Document>)
    requires forall i, j :: 0 <= i < j < |docs| ==> docs[i].name != docs[j].name
    requires |PackAll(c, doCompress, docs).body| < U32_LIMIT
    ensures forall i | 0 <= i < |docs| :: OwnRange(c, doCompress, docs, i)
    ensures |PackAll(c, doCompress, docs[..0]).body| == 0
    ensures PackAll(c, doCompress, docs[..|docs|]).body == PackAll(c, doCompress, docs).body
  {
    forall i | 0 <= i < |docs|
      ensures OwnRange(c, doCompress, docs, i)
    {
      EntryOfDistinct(c, doCompress, docs, i);
    }
    assert docs[..0] == [];
    assert docs[..|docs|] == docs;
  }

  /** The `repack` loop's state, updated in place one document at a time. */
  class Packer {
    const codecs: Codecs
    const doCompress: bool
    var header: InfoHeader
    var body: seq<byte>
    var offset: u32
    /** The documents added so far. */
    ghost var Docs: seq<Document>

    ghost predicate Valid()
      reads this
    {
      PackState(header, body, offset) == PackAll(codecs, doCompress, Docs)
    }

    constructor (codecs: Codecs, doCompress: bool)
      ensures Valid()
      ensures this.codecs == codecs && this.doCompress == doCompress
      ensures Docs == [] && header == map[] && body == [] && offset == 0
    {
      this.codecs := codecs;
      this.doCompress := doCompress;
      header := map[];
      body := [];
      offset := 0;
      Docs := [];
    }

    /** One iteration of the `repack` loop for the document `data` read from a file with stem `name`. */
    method AddEntry(name: string, data: Value)
      requires Valid()
      modifies this
      ensures Valid()
      ensures Docs == old(Docs) + [Document(name, data)]
      ensures offset == AsU32(|body|)
      ensures PackState(header, body, offset) == Step(codecs, doCompress, old(PackState(header, body, offset)), Document(name, data))
    {
      var dataVec := codecs.encodeValue(data);
      var packed := PackBytes(codecs, dataVec, doCompress);
      ghost var d := Document(name, data);
      PackAllAppend(codecs, doCompress, Docs, d);
      OffsetTracksBody(codecs, doCompress, Docs + [d]);
      header := header[name := HeaderEntry(offset, AsU32(|packed|))];
      offset := AsU32(offset + AsU32(|packed|));
      body := body + packed;
      Docs := Docs + [d];
    }
  }

  /**
   * The bytes `repack` stores for the plain encoding `dataVec`: if compression is on and the
   * encoding is longer than 64 bytes, the `compressed` buffer is built from the size token and the
   * LZ4 block and encoded as the extension value; otherwise `dataVec` itself.
   */
  method PackBytes(c: Codecs, dataVec: seq<byte>, doCompress: bool) returns (packed: seq<byte>)
    ensures packed == Stored(c, dataVec, doCompress)
  {
    if doCompress && |dataVec| > COMPRESS_THRESHOLD {
      var compressed: seq<byte> := [];
      compressed := compressed + WriteI32(AsI32(|dataVec|));
      var dataCompressed := c.compress(dataVec);
      compressed := compressed + dataCompressed;
      assert compressed == EnvelopePayload(c, dataVec);
      packed := c.encodeValue(Ext(COMPRESSED_EXT, compressed));
    } else {
      packed := dataVec;
    }
  }

  /** `repack`: add every document in directory order, then write the header followed by the body. */
  method Repack(c: Codecs, docs: seq<Document>, doCompress: bool) returns (archive: seq<byte>)
    ensures archive == ArchiveBytes(c, PackAll(c, doCompress, docs))
  {
    var packer := new Packer(c, doCompress);
    for i := 0 to |docs|
      invariant packer.Valid()
      invariant packer.codecs == c && packer.doCompress == doCompress
      invariant packer.Docs == docs[..i]
    {
      packer.AddEntry(docs[i].name, docs[i].value);
      assert docs[..i + 1] == docs[..i] + [docs[i]];
    }
    assert docs[..|docs|] == docs;
    var headerVec := c.encodeHeader(packer.header);
    archive := headerVec + packer.body;
  }
}
