# Archive codec of the JSON directory packer, in Dafny

The program turns a directory of JSON documents into one binary archive and back. An archive is
laid out as follows:

- a header comes first: a MessagePack-encoded `BTreeMap` from file stem to `HeaderEntry { offset, length }`;
- a body follows it: the stored form of every document, one after another;
- each document is stored in one of two forms:
  - its plain MessagePack encoding;
  - when compression is on and that encoding is longer than 64 bytes, a compression envelope.
    This is a MessagePack extension value of type 99. Its payload is the "int 32" token of the
    plain length (marker `0xd2` and four big-endian bytes) followed by the LZ4 block of the plain
    encoding.

`repack` builds the header and the body in a loop. It keeps a running `u32` offset. `unpack` works
in the other direction:

- it decodes the header from the start of the file;
- the body starts wherever the header decoder stopped;
- it visits the entries in key order;
- for each entry it decodes one value at body start plus the offset;
- if that value is an extension, it decompresses everything after the payload's first five bytes
  to the size read from the token, and decodes the result.

The model is arranged as follows:

- `Packing.Packer` is a class, whose `AddEntry` method is one iteration of the `repack` loop.
  `Packing.Repack` runs the loop.
- `Unpacking.Unpack` is a `while` loop over the keys still to visit. Each round takes the least key,
  which is the order in which a `BTreeMap` iterates.
- Each of the two loops is proved against a specification function:
  - for packing, `Packing.Step` and `Packing.PackAll`;
  - for unpacking, `Unpacking.UnpackEntries` and `Unpacking.UnpackArchive`.
- The lemmas about those functions give the layout facts:
  - the offset tracks the body length;
  - every header entry points at exactly the bytes stored for the last document of its stem;
  - the 64/65-byte threshold;
  - the envelope layout;
  - wrap and unwrap invert each other.
- `RoundTrip.PackThenUnpack` states the end-to-end result. Unpacking a packed directory yields,
  without failure and in ascending key order, one document per distinct stem, holding the value of
  the last document seen with that stem.

The library routines are parameters of the model, collected in `Archive.Codecs`:

- the `rmp_serde` value and header codecs;
- LZ4 `compress`/`decompress`.

`Archive.Sound` states what is assumed of them:

- each MessagePack decoder reads back whatever its encoder wrote, whatever bytes follow, and
  reports how many bytes it consumed (`MsgPack.PrefixCodec`);
- decompressing to the original length restores the original, for inputs shorter than 2^31
  bytes, since the size reaches `decompress` as an `i32` (`Lz4.Lossless`).

Only the "int 32" token is modelled byte by byte, because `unpack` skips a fixed five bytes
(src/main.rs:65) that only the writer's choice of format justifies.

The integer casts of the source are written out as wrap-around:

- `packed.len() as u32`;
- `offset += ...` on a `u32` (release-build semantics);
- `data_vec.len() as i32`.

The exactness results hold under the bounds they state: a body below 2^32 bytes, and, for the
documents that are compressed, plain encodings below 2^31 bytes.

Points where the model follows the exact behaviour of the code:

- The size token is written by `rmp::encode::write_i32` (src/main.rs:87): the five-byte "int 32"
  format of the MessagePack specification ("int format family"), marker `0xd2` and four
  big-endian bytes, not a bare four-byte integer.
- `unpack` unwraps an extension of any type (`is_ext`, src/main.rs:62), not only type 99.
- The size token is read with `rmp_serde::from_slice::<i32>` (src/main.rs:64), which accepts any
  MessagePack integer format whose value fits in `i32`, while the following line always skips
  five bytes.
- A stem that occurs twice keeps only its last document (`header.insert`, src/main.rs:100-112).
- Each failing `unwrap()` of `unpack`'s decoding steps (src/main.rs:48, 59, 64, 65, 66) is
  modelled as an `Archive.UnpackError` that stops the loop, with the documents before it already
  written.

## Model

| member | source | states |
|---|---|---|
| Bytes.AsU32 | src/main.rs:110-113 | `len as u32` never exceeds the length and is the length itself below 2^32 |
| Bytes.AsU32IsLow32 | src/main.rs:110-113 | the cast to `u32` keeps exactly the length modulo 2^32 |
| Bytes.AsU32Add | src/main.rs:113 | adding wrapped lengths to a wrapped offset `u32` gives the wrap of the exact sum, so wrapping once at the end or at every step agree |
| Bytes.AsI32Cases | src/main.rs:87 | `len as i32` is the length below 2^31 and negative from 2^31 to 2^32; its two's-complement bits are the low 32 bits of the length |
| Bytes.ToBigEndian | src/main.rs:87 | the width-byte big-endian form of a number has that width and reads back as the number |
| MsgPack.ReadWrittenI32 | src/main.rs:87 | `write_i32` always emits five bytes, and the `i32` reader gives back the number written, whatever follows it |
| MsgPack.ReadI32AcceptsFixint | src/main.rs:64 | the `i32` reader also accepts shorter integer formats: every one-byte positive fixint, and the `uint 8` form |
| Archive.UnwrapSkipsFiveAfterFixint | src/main.rs:64-65 | a payload whose size token is a one-byte fixint is accepted, and then decompression starts four bytes into the block, so the fixed five-byte skip relies on the writer's format |
| Archive.EnvelopeLayout | src/main.rs:86-90 | the envelope has extension type 99 and its payload is `0xd2`, the plain length as four big-endian bytes (its low 32 bits), then exactly the compressed bytes |
| Archive.UnwrapWrap | src/main.rs:62-66 | reading the size token of a wrapped payload and decompressing the bytes after the first five gives back the plain encoding, for plain encodings below 2^31 bytes |
| Archive.WrappedExactlyAboveThreshold | src/main.rs:85-93 | the value found at a stored entry is an extension exactly when compression is on and the plain encoding is longer than 64 bytes; it is then the envelope, otherwise the document's own value |
| Archive.ThresholdBoundary | src/main.rs:85 | a 64-byte plain encoding is stored as is; a 65-byte one is stored wrapped when compression is on; with compression off nothing is wrapped |
| Archive.DecodeStoredInvertsStored | src/main.rs:59-69 | decoding a stored entry, unwrapping it when it is an extension, gives back the document's value whatever bytes follow it; only a compressed document needs a plain encoding below 2^31 bytes |
| Packing.StepEffect | src/main.rs:100-114 | one iteration appends the stored bytes after an unchanged body; the stem's entry becomes (old offset, stored length), replacing any earlier entry of that stem; other entries are unchanged |
| Packing.StepKeepsOffset | src/main.rs:108-114 | if the offset equals the body length modulo 2^32 before an iteration, it still does afterwards |
| Packing.PackAllAppend | src/main.rs:79-116 | processing one more document is one more iteration on the state reached so far |
| Packing.LastIndex | src/main.rs:100-112 | the position of the document of a stem whose insert wins: it has that stem and no later document does |
| Packing.OffsetTracksBody | src/main.rs:76-114 | after any number of iterations the offset is the body length modulo 2^32, and equals it while the body is below 2^32 bytes |
| Packing.BodyOnlyGrows | src/main.rs:114 | the body after the first i documents is a prefix of the final body |
| Packing.HeaderKeysAreNames | src/main.rs:100-112 | the header's keys are exactly the stems of the documents processed |
| Packing.StepLocatesNew | src/main.rs:108-114 | after an iteration, the new entry points at the old body length and the body bytes there are exactly the stored bytes |
| Packing.StepKeepsOld | src/main.rs:100-114 | an iteration for another stem leaves an entry and the bytes it points at unchanged |
| Packing.EntryLocatesStored | src/main.rs:100-114 | every header entry points at exactly the bytes stored for the last document of its stem, inside the body |
| Packing.EntryOfSurvivor | src/main.rs:108-114 | the entry of a document whose insert wins runs from the body length before it to the body length after it |
| Packing.RangesTileBody | src/main.rs:108-114 | with distinct stems, the entries' ranges are contiguous in arrival order, start at 0 and end at the body length |
| Packing.Packer.constructor | src/main.rs:75-77 | the loop starts with an empty header, an empty body and offset 0 |
| Packing.Packer.AddEntry | src/main.rs:80-114 | one iteration updates header, body and offset in place as one step of the specification, and keeps the offset at the body length modulo 2^32 |
| Packing.PackBytes | src/main.rs:85-93 | the bytes built with `write_i32`, `compress` and `append` are the stored form of the plain encoding |
| Packing.Repack | src/main.rs:74-125 | the loop over all documents followed by the two writes produces the header's encoding followed by the body of the specification |
| Unpacking.UnpackEntries | src/main.rs:52-71 | the documents written carry the visited names in order with the values read for them; all names are written unless an entry fails, and then the failure is that entry's error |
| Unpacking.UnpackWritesInKeyOrder | src/main.rs:48-52 | an unreadable header writes nothing; otherwise the written names are header keys in strictly ascending order, all of them when nothing fails |
| Unpacking.ReadEntryIgnoresLength | src/main.rs:56-59 | what is read for an entry does not depend on its recorded length |
| Unpacking.HeaderOfArchive | src/main.rs:48-49 | the header that `repack` writes before the body (lines 123-125) is read back, and the body starts right after its encoding |
| Unpacking.VisitLeast | src/main.rs:52 | visiting a key set in map order starts with its least key, then visits the others |
| Unpacking.Unpack | src/main.rs:46-72 | the loop writes exactly the documents and reports exactly the failure of the specification |
| KeyOrder.BelowIrreflexive | src/main.rs:21 | no key sorts before itself |
| KeyOrder.BelowTransitive | src/main.rs:21 | the key order is transitive |
| KeyOrder.BelowTotal | src/main.rs:21 | any two distinct keys are ordered one way or the other |
| KeyOrder.LeastExists | src/main.rs:52 | every non-empty key set has a least key |
| KeyOrder.LeastUnique | src/main.rs:52 | a key set has only one least key |
| KeyOrder.SortedKeys | src/main.rs:52 | the iteration order of a map lists each key exactly once, strictly ascending |
| RoundTrip.TailOfArchive | src/main.rs:49-59 | seeking to the header's end plus a body offset reads the archive's body from that offset on |
| RoundTrip.ReadEntryOfPacked | src/main.rs:56-69 | in a packed archive, the entry of each stem reads back the value of the last document with that stem |
| RoundTrip.EntriesReadBack | src/main.rs:52-71 | when every visited entry reads back, the loop writes all of them in order without failure |
| RoundTrip.PackThenUnpack | src/main.rs:46-126 | unpacking the bytes of a packed directory writes, without failure, one document per distinct stem in ascending key order, each with the last value seen for that stem |
| RoundTrip.RepackThenUnpack | src/main.rs:46-126 | the same through the two loops: `Unpack` after `Repack` reports no failure and returns those documents |

## Left out

- Command-line parsing and the mode choice of `main` (src/main.rs:27-44): argument glue. The model
  takes `doCompress` as a parameter.
- Files and I/O are not modelled:
  - `read_dir`, opening and creating files, `create_dir`, buffered writers, `seek` and the
    progress lines;
  - the directory is a sequence of (stem, value) documents, in the order the directory listing
    gives;
  - an unreadable directory entry (`if let Ok`) is simply absent from that sequence;
  - the archive is a byte sequence;
  - the position of a reader after decoding is the byte count the decoder reports.
- I/O failures are not modelled: an output directory that already exists, a failed create or write.
- `repack`'s own `unwrap()` calls (src/main.rs:84, 87, 88, 90, 123) cannot fail in the model: the
  encoders and `compress` are total parameters and `Packing.Repack` has no failure outcome. In the
  program such a panic, for example a failing `compress`, stops before `File::create` at
  src/main.rs:117, so no archive is written.
- An empty `<name>.json` is left behind when decoding of an extension fails. The file is created
  before unwrapping, and the model records only the documents fully written.
- JSON reading and writing with `serde_json`: a foreign codec. Documents are already-decoded values,
  and "written" means the value handed to the JSON writer.
- `file_stem` and the conversion of file names to strings: a document carries its stem.
- The MessagePack encoding of arbitrary values and of the header map, and the LZ4 block algorithm:
  library code. They are parameters with the laws in `Archive.Sound`. There is no law for malformed
  input, so detecting corrupt payloads or a size mismatch is left to the decompressor parameter.
- Floats are carried as bit patterns and never interpreted.
- `Packing.Packer.AddEntry` and `Bytes.AsU32` model release builds, where `u32` addition wraps. A
  debug build would panic on the overflow instead.
- RoundTrip.PackThenUnpack requires three bounds:
  - no document is itself a top-level extension value; JSON cannot produce one;
  - every plain encoding that is compressed is below 2^31 bytes, so that `as i32` keeps the size;
  - the body is below 2^32 bytes, so that offsets do not wrap.

  Beyond these bounds the model still computes what the program does, but no round trip is claimed.
