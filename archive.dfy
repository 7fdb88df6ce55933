/**
 * The archive's data model (`HeaderEntry`, `InfoHeader`) and the per-entry stored form: either the
 * plain MessagePack encoding of a document, or a compression envelope, an extension value of type
 * 99 whose payload is an "int 32" token with the plain length followed by the LZ4 block.
 */
module Archive {
  import opened Wrappers
  import opened Bytes
  import opened MsgPack
  import opened Lz4

  /** Where one stored value sits, counted from the first byte after the header. */
  datatype HeaderEntry = HeaderEntry(offset: u32, length: u32)

  /** `InfoHeader`, a `BTreeMap<String, HeaderEntry>` keyed by file stem. */
  type InfoHeader = map<string, HeaderEntry>

  /** One document of the packed directory: its file stem and the value read from it. */
  datatype Document = Document(name: string, value: Value)

  /**
   * The library routines the program calls: `rmp_serde` for values and for the header, and the
   * LZ4 block codec.  They are parameters of the model; `Sound` states what is assumed of them.
   */
  datatype Codecs = Codecs(
    encodeValue: Value -> seq<byte>,
    decodeValue: seq<byte> -> Option<(Value, nat)>,
    encodeHeader: InfoHeader -> seq<byte>,
    decodeHeader: seq<byte> -> Option<(InfoHeader, nat)>,
    compress: seq<byte> -> seq<byte>,
    decompress: (seq<byte>, int) -> Option<seq<byte>>)

  ghost predicate Sound(c: Codecs)
  {
    && PrefixCodec(c.encodeValue, c.decodeValue)
    && PrefixCodec(c.encodeHeader, c.decodeHeader)
    && Lossless(c.compress, c.decompress)
  }

  /** Extension type of the compression envelope (`ExtStruct((99, ..))`). */
  const COMPRESSED_EXT: i8 := 99
  /** Plain encodings longer than this many bytes are compressed. */
  const COMPRESS_THRESHOLD: nat := 64
  /** Bytes `unpack` skips before the LZ4 block: the width of the "int 32" token. */
  const SIZE_TOKEN_WIDTH: nat := 5

  /** Why unpacking stops; every such failure is an `unwrap()` panic in the program. */
  datatype UnpackError =
    | HeaderUnreadable
    | ValueUnreadable
    | SizeTokenUnreadable
    | PayloadTooShort
    | DecompressionFailed
    | InnerValueUnreadable

  /** The envelope payload: `write_i32(len as i32)`, then the compressed bytes appended to it. */
  function EnvelopePayload(c: Codecs, plain: seq<byte>): seq<byte>
  {
    WriteI32(AsI32(|plain|)) + c.compress(plain)
  }

  /** The compression envelope around the plain encoding `plain`. */
  function Wrap(c: Codecs, plain: seq<byte>): Value
  {
    Ext(COMPRESSED_EXT, EnvelopePayload(c, plain))
  }

  /** The bytes `repack` appends to the body for a document whose plain encoding is `plain`. */
  function Stored(c: Codecs, plain: seq<byte>, doCompress: bool): seq<byte>
  {
    if doCompress && |plain| > COMPRESS_THRESHOLD then c.encodeValue(Wrap(c, plain)) else plain
  }

  /**
   * `unpack` on an extension payload: read the size token from the whole payload, then
   * decompress everything after the first five bytes to that size.
   */
  function Unwrap(c: Codecs, payload: seq<byte>): Result<seq<byte>, UnpackError>
  {
    match ReadI32(payload)
    case None => Failure(SizeTokenUnreadable)
    case Some(size) =>
      if |payload| < SIZE_TOKEN_WIDTH then Failure(PayloadTooShort)
      else
        match c.decompress(payload[SIZE_TOKEN_WIDTH..], size)
        case None => Failure(DecompressionFailed)
        case Some(plain) => Success(plain)
  }

  /**
   * `unpack` on the bytes from an entry's position to the end of the file: decode one value; if it
   * is an extension of any type, unwrap it and decode the decompressed bytes.
   */
  function DecodeStored(c: Codecs, tail: seq<byte>): Result<Value, UnpackError>
  {
    match c.decodeValue(tail)
    case None => Failure(ValueUnreadable)
    case Some((v, _)) =>
      if !v.Ext? then Success(v)
      else
        match Unwrap(c, v.data)
        case Failure(e) => Failure(e)
        case Success(plain) =>
          match c.decodeValue(plain)
          case None => Failure(InnerValueUnreadable)
          case Some((inner, _)) => Success(inner)
  }

  /**
   * The envelope's layout: type 99, the "int 32" marker and the plain length as four big-endian
   * bytes (its low 32 bits), then exactly the compressed bytes.
   */
  lemma EnvelopeLayout(c: Codecs, plain: seq<byte>)
    ensures Wrap(c, plain).tag == 99
    ensures var p := Wrap(c, plain).data;
      && |p| >= SIZE_TOKEN_WIDTH
      && p[..SIZE_TOKEN_WIDTH] == [0xd2] + ToBigEndian(AsU32(|plain|), 4)
      && p[SIZE_TOKEN_WIDTH..] == c.compress(plain)
  {
    var token := WriteI32(AsI32(|plain|));
    AsI32Cases(|plain|);
    ReadWrittenI32(AsI32(|plain|), []);
    assert Wrap(c, plain).data == token + c.compress(plain);
  }

  /** Unwrapping inverts wrapping as long as the length survives the cast to `i32`. */
  lemma UnwrapWrap(c: Codecs, plain: seq<byte>)
    requires Lossless(c.compress, c.decompress)
    requires |plain| < I32_LIMIT
    ensures Unwrap(c, Wrap(c, plain).data) == Success(plain)
  {
    var token := WriteI32(AsI32(|plain|));
    var payload := token + c.compress(plain);
    AsI32Cases(|plain|);
    ReadWrittenI32(AsI32(|plain|), c.compress(plain));
    assert payload[SIZE_TOKEN_WIDTH..] == c.compress(plain);
  }

  /**
   * The fixed five-byte skip relies on the writer: a payload whose size token is a one-byte
   * fixint is accepted, and then the first four bytes after the token are skipped as well.
   */
  lemma UnwrapSkipsFiveAfterFixint(c: Codecs, n: nat, block: seq<byte>)
    requires n < 0x80
    ensures |block| < 4 ==> Unwrap(c, [n] + block) == Failure(PayloadTooShort)
    ensures |block| >= 4 ==>
      Unwrap(c, [n] + block) ==
        (match c.decompress(block[4..], n)
         case None => Failure(DecompressionFailed)
         case Some(plain) => Success(plain))
  {
    ReadI32AcceptsFixint(n, block);
    assert |block| >= 4 ==> ([n] + block)[SIZE_TOKEN_WIDTH..] == block[4..];
  }

  /**
   * The value found at a stored entry is an extension exactly when the packer compressed it:
   * compression on and a plain encoding longer than 64 bytes.
   */
  lemma WrappedExactlyAboveThreshold(c: Codecs, v: Value, doCompress: bool, rest: seq<byte>)
    requires Sound(c)
    requires !v.Ext?
    ensures var found := c.decodeValue(Stored(c, c.encodeValue(v), doCompress) + rest);
      && found.Some?
      && (found.value.0.Ext? <==> doCompress && |c.encodeValue(v)| > COMPRESS_THRESHOLD)
      && (found.value.0.Ext? ==> found.value.0 == Wrap(c, c.encodeValue(v)))
      && (!found.value.0.Ext? ==> found.value.0 == v)
  {
    var plain := c.encodeValue(v);
    if doCompress && |plain| > COMPRESS_THRESHOLD {
      assert c.decodeValue(c.encodeValue(Wrap(c, plain)) + rest).value.0 == Wrap(c, plain);
    } else {
      assert c.decodeValue(plain + rest).value.0 == v;
    }
  }

  /** The boundary of the threshold: 64 bytes stay plain, 65 bytes are wrapped when compression is on. */
  lemma ThresholdBoundary(c: Codecs, v: Value, doCompress: bool)
    requires Sound(c)
    requires !v.Ext?
    ensures var s := Stored(c, c.encodeValue(v), doCompress);
      |c.encodeValue(v)| == 64 ==> s == c.encodeValue(v) && c.decodeValue(s) == Some((v, 64))
    ensures var s := Stored(c, c.encodeValue(v), doCompress);
      |c.encodeValue(v)| == 65 && doCompress ==> c.decodeValue(s) == Some((Wrap(c, c.encodeValue(v)), |s|))
    ensures !doCompress ==> Stored(c, c.encodeValue(v), doCompress) == c.encodeValue(v)
  {
    var s := Stored(c, c.encodeValue(v), doCompress);
    assert s + [] == s;
    WrappedExactlyAboveThreshold(c, v, doCompress, []);
  }

  /**
   * Decoding a stored entry gives back the document's value, whichever form was stored and
   * whatever bytes follow it in the file.
   */
  lemma DecodeStoredInvertsStored(c: Codecs, v: Value, doCompress: bool, rest: seq<byte>)
    requires Sound(c)
    requires !v.Ext?
    requires doCompress && |c.encodeValue(v)| > COMPRESS_THRESHOLD ==> |c.encodeValue(v)| < I32_LIMIT
    ensures DecodeStored(c, Stored(c, c.encodeValue(v), doCompress) + rest) == Success(v)
  {
    var plain := c.encodeValue(v);
    WrappedExactlyAboveThreshold(c, v, doCompress, rest);
    if doCompress && |plain| > COMPRESS_THRESHOLD {
      UnwrapWrap(c, plain);
      assert plain + [] == plain;
    }
  }
}
