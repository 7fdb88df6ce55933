/**
 * The part of MessagePack that the archive relies on: the dynamic value tree of `rmpv::Value`,
 * the law that ties a value encoder to a prefix decoder, and the "int 32" token of the
 * MessagePack specification ("int format family"), which the compression envelope writes by hand.
 */
module MsgPack {
  import opened Wrappers
  import opened Bytes

  type i8 = x: int | -0x80 <= x < 0x80

  /** `rmpv::Integer` holds any value of `i64` or of `u64`. */
  type Integer = x: int | -0x8000_0000_0000_0000 <= x < 0x1_0000_0000_0000_0000

  /** `rmpv::Value`: floats are carried as their bit patterns and never interpreted. */
  datatype Value =
    | Nil
    | Boolean(flag: bool)
    | Int(number: Integer)
    | F32(bits32: bv32)
    | F64(bits64: bv64)
    | String(text: string)
    | Binary(bytes: seq<byte>)
    | Array(items: seq<Value>)
    | Map(pairs: seq<(Value, Value)>)
    | Ext(tag: i8, data: seq<byte>)

  /**
   * `decode` reads one value from the front of its input and reports how many bytes it consumed,
   * and it gives back every encoded value whatever bytes follow it.  This is the contract of
   * `rmp_serde::to_vec` against `rmp_serde::from_read`, for `Value` and for the archive header.
   */
  ghost predicate PrefixCodec<T(!new)>(encode: T -> seq<byte>, decode: seq<byte> -> Option<(T, nat)>)
  {
    forall v: T, rest: seq<byte> :: decode(encode(v) + rest) == Some((v, |encode(v)|))
  }

  /** Marker byte of the "int 32" format. */
  const INT32_MARKER: byte := 0xd2

  /** `rmp::encode::write_i32`: always the "int 32" format, the marker and four big-endian bytes. */
  function WriteI32(n: i32): seq<byte>
  {
    [INT32_MARKER] + ToBigEndian(TwosComplement32(n), 4)
  }

  /** Reads `u`, the unsigned value of `width` bytes, as two's complement. */
  function Signed(u: nat, width: nat): int
  {
    if u >= Pow256(width) / 2 then u - Pow256(width) else u
  }

  /**
   * The number held by the MessagePack integer at the front of `p`, in any format of the
   * "int format family" (fixints, uint 8..64, int 8..64), or None when `p` does not start with one.
   */
  function IntegerAt(p: seq<byte>): Option<int>
  {
    if |p| == 0 then None
    else if p[0] <= 0x7f then Some(p[0])
    else if p[0] >= 0xe0 then Some(p[0] as int - 0x100)
    else if 0xcc <= p[0] <= 0xd3 then
      var width := [1, 2, 4, 8][(p[0] - 0xcc) % 4];
      if |p| < 1 + width then None
      else
        var u := BigEndian(p[1..1 + width]);
        Some(if p[0] >= 0xd0 then Signed(u, width) else u)
    else None
  }

  /**
   * `rmp_serde::from_slice::<i32>`: the integer at the front of `p` when it fits in an `i32`;
   * whatever follows it is ignored.
   */
  function ReadI32(p: seq<byte>): Option<i32>
  {
    match IntegerAt(p)
    case Some(n) => if -I32_LIMIT <= n < I32_LIMIT then Some(n) else None
    case None => None
  }

  /** The token `WriteI32` produces is five bytes long, and `ReadI32` reads its number back, whatever follows. */
  lemma ReadWrittenI32(n: i32, rest: seq<byte>)
    ensures |WriteI32(n)| == 5
    ensures ReadI32(WriteI32(n) + rest) == Some(n)
  {
    Pow256Values();
    var p := WriteI32(n) + rest;
    var digits := ToBigEndian(TwosComplement32(n), 4);
    assert p[0] == INT32_MARKER;
    assert p[1..5] == digits;
    assert BigEndian(p[1..5]) == TwosComplement32(n);
    assert IntegerAt(p) == Some(Signed(TwosComplement32(n), 4));
  }

  /**
   * The reader accepts shorter forms of a number too: every one-byte positive fixint and the
   * two-byte `uint 8` form are read as sizes, although they are shorter than the five-byte token.
   */
  lemma ReadI32AcceptsFixint(n: nat, rest: seq<byte>)
    requires n < 0x80
    ensures ReadI32([n] + rest) == Some(n)
    ensures ReadI32([0xcc, 0xff] + rest) == Some(255)
  {
    var p := [0xcc, 0xff] + rest;
    assert p[1..2] == [0xff];
    assert BigEndian([0xff]) == BigEndian([]) * 0x100 + 0xff;
  }
}
