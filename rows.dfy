/**
 * The row layout of the store and its fixed-width byte codec.
 *
 * A row is an unsigned 64-bit id followed by two 32-byte fields. One encoded
 * row fills a 72-byte slot: the id as 8 little-endian bytes, then the raw
 * username bytes, then the raw email bytes, with no length prefixes.
 */
module Rows {

  type byte = x: int | 0 <= x < 256

  const U64_BOUND: nat := 0x1_0000_0000_0000_0000

  type u64 = x: int | 0 <= x < U64_BOUND

  const ID_SIZE: nat := 8
  const FIELD_SIZE: nat := 32
  /** Size of one encoded row: 8 id bytes, then two 32-byte fields. */
  const ROW_SIZE: nat := 72

  /** A fixed-width byte field, as the source's `[u8; 32]`. */
  type Field = s: seq<byte> | |s| == FIELD_SIZE witness ZeroField()

  function ZeroField(): (f: seq<byte>)
    ensures |f| == FIELD_SIZE && forall i :: 0 <= i < |f| ==> f[i] == 0
  {
    seq(FIELD_SIZE, _ => 0)
  }

  datatype Row = Row(id: u64, username: Field, email: Field)

  /** The error kinds of the command layer and the store. */
  datatype Error = SyntaxError | UnknownCommand | InternalError

  datatype Option<T> = None | Some(value: T)

  datatype Result<T> = Ok(value: T) | Err(error: Error)

  // ---------------------------------------------------------------------
  // Little-endian fixed-width integers
  // ---------------------------------------------------------------------

  function Pow256(n: nat): (p: nat)
    ensures p >= 1
  {
    if n == 0 then 1 else 256 * Pow256(n - 1)
  }

  lemma Pow256Eight()
    ensures Pow256(ID_SIZE) == U64_BOUND
  {
  }

  /** The `n` little-endian bytes of `x`, least significant first. */
  function LeBytes(x: nat, n: nat): (b: seq<byte>)
    requires x < Pow256(n)
    ensures |b| == n
  {
    if n == 0 then [] else [x % 256] + LeBytes(x / 256, n - 1)
  }

  /** The number a little-endian byte string denotes. */
  function LeValue(b: seq<byte>): (x: nat)
    ensures x < Pow256(|b|)
  {
    if b == [] then 0
    else
      var rest := LeValue(b[1..]);
      assert 256 * rest <= 256 * (Pow256(|b| - 1) - 1);
      b[0] + 256 * rest
  }

  lemma {:induction false} LeValueOfLeBytes(x: nat, n: nat)
    requires x < Pow256(n)
    ensures LeValue(LeBytes(x, n)) == x
  {
    if n > 0 {
      LeValueOfLeBytes(x / 256, n - 1);
      assert LeBytes(x, n)[1..] == LeBytes(x / 256, n - 1);
    }
  }

  lemma {:induction false} LeBytesOfLeValue(b: seq<byte>)
    ensures LeBytes(LeValue(b), |b|) == b
  {
    if b != [] {
      LeBytesOfLeValue(b[1..]);
      assert [b[0]] + b[1..] == b;
    }
  }

  // ---------------------------------------------------------------------
  // Row codec
  // ---------------------------------------------------------------------

  /** The 72-byte slot image of a row: id, username, email. */
  function EncodeRow(r: Row): (b: seq<byte>)
    ensures |b| == ROW_SIZE
    ensures LeValue(b[..ID_SIZE]) == r.id
    ensures b[ID_SIZE..ID_SIZE + FIELD_SIZE] == r.username
    ensures b[ID_SIZE + FIELD_SIZE..] == r.email
  {
    Pow256Eight();
    var idBytes := LeBytes(r.id, ID_SIZE);
    LeValueOfLeBytes(r.id, ID_SIZE);
    var b := idBytes + r.username + r.email;
    assert b[..ID_SIZE] == idBytes;
    b
  }

  /**
   * Reads a row back from a slot. Every 72-byte string is a valid row
   * image; any other length is refused.
   */
  function DecodeRow(b: seq<byte>): (r: Option<Row>)
    ensures r.Some? <==> |b| == ROW_SIZE
  {
    if |b| != ROW_SIZE then None
    else
      Pow256Eight();
      var id := LeValue(b[..ID_SIZE]);
      Some(Row(id, b[ID_SIZE..ID_SIZE + FIELD_SIZE], b[ID_SIZE + FIELD_SIZE..]))
  }

  /** Decoding a slot written by encoding gives back the same row. */
  lemma RowRoundTrip(r: Row)
    ensures DecodeRow(EncodeRow(r)) == Some(r)
  {
  }

  /** Every 72-byte slot is the image of exactly the row it decodes to. */
  lemma SlotRoundTrip(b: seq<byte>)
    requires |b| == ROW_SIZE
    ensures DecodeRow(b).Some? && EncodeRow(DecodeRow(b).value) == b
  {
    Pow256Eight();
    LeBytesOfLeValue(b[..ID_SIZE]);
    var e := EncodeRow(DecodeRow(b).value);
    assert e[..ID_SIZE] == LeBytes(LeValue(b[..ID_SIZE]), ID_SIZE);
    assert e == e[..ID_SIZE] + e[ID_SIZE..ID_SIZE + FIELD_SIZE] + e[ID_SIZE + FIELD_SIZE..];
    assert b == b[..ID_SIZE] + b[ID_SIZE..ID_SIZE + FIELD_SIZE] + b[ID_SIZE + FIELD_SIZE..];
  }

  /** Distinct rows occupy distinct slot images. */
  lemma EncodeRowInjective(r1: Row, r2: Row)
    requires EncodeRow(r1) == EncodeRow(r2)
    ensures r1 == r2
  {
    RowRoundTrip(r1);
    RowRoundTrip(r2);
  }
}
