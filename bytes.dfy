/**
 * Fixed-width unsigned integers and the two byte orders the library uses:
 * network order (most significant byte first) for WebSocket length fields,
 * and host order for the typed buffer accessors. Host order is modelled as
 * little-endian, the order of the usual targets.
 */
module Bytes {

  newtype u16 = x: int | 0 <= x < 0x1_0000
  newtype u32 = x: int | 0 <= x < 0x1_0000_0000
  newtype u64 = x: int | 0 <= x < 0x1_0000_0000_0000_0000

  /** 256 to the power n: one more than the largest value n bytes hold. */
  function Pow256(n: nat): (r: nat)
    ensures r >= 1
  {
    if n == 0 then 1 else 256 * Pow256(n - 1)
  }

  /** Value of `bs` read least significant byte first (host order). */
  function LittleEndian(bs: seq<bv8>): (v: nat)
    ensures v < Pow256(|bs|)
  {
    if bs == [] then 0
    else
      var rest := LittleEndian(bs[1..]);
      assert rest <= Pow256(|bs| - 1) - 1;
      bs[0] as nat + 256 * rest
  }

  /** The `n` bytes that hold `v` in host order, as a store through a `uintN_t *` writes them. */
  function LittleEndianBytes(v: nat, n: nat): (bs: seq<bv8>)
    ensures |bs| == n
  {
    if n == 0 then [] else [(v % 256) as bv8] + LittleEndianBytes(v / 256, n - 1)
  }

  /** A byte's value, converted back, is the byte. */
  lemma ByteRoundTrip(b: bv8)
    ensures (b as int) as bv8 == b
  {
  }

  /** A byte holding each value 0..255, counted up from 0. */
  lemma {:induction false} ByteOf(x: int) returns (b: bv8)
    requires 0 <= x < 256
    ensures b as int == x
  {
    if x == 0 {
      b := 0;
    } else {
      var c := ByteOf(x - 1);
      b := c + 1;
    }
  }

  /** Every value 0..255 survives the conversion to a byte. */
  lemma ByteValue(x: int)
    requires 0 <= x < 256
    ensures (x as bv8) as int == x
  {
    var b := ByteOf(x);
    ByteRoundTrip(b);
  }

  /** A single byte read in host order is that byte. */
  lemma SingleByte(bs: seq<bv8>)
    requires |bs| == 1
    ensures LittleEndian(bs) as bv8 == bs[0]
  {
    assert bs[1..] == [];
    assert LittleEndian(bs) == bs[0] as nat;
    ByteRoundTrip(bs[0]);
  }

  /** Storing a byte's value in one byte stores that byte. */
  lemma OneByte(b: bv8)
    ensures LittleEndianBytes(b as nat, 1) == [b]
  {
    var v := b as nat;
    ByteRoundTrip(b);
    assert 0 <= v < 256;
    assert LittleEndianBytes(v, 1) == [(v % 256) as bv8];
  }

  /** Storing a value of `n` bytes and loading it back gives the value again. */
  lemma {:induction false} LittleEndianRoundTrip(v: nat, n: nat)
    requires v < Pow256(n)
    ensures LittleEndian(LittleEndianBytes(v, n)) == v
  {
    if n > 0 {
      var q, r := v / 256, v % 256;
      assert v == 256 * q + r;
      var m := Pow256(n - 1);
      assert Pow256(n) == 256 * m;
      assert q < m;
      LittleEndianRoundTrip(q, n - 1);
      var bs := LittleEndianBytes(v, n);
      ByteValue(r);
      assert bs[1..] == LittleEndianBytes(q, n - 1);
    }
  }

  /** strlen: the number of bytes before the first NUL (all of them when there is none). */
  function StrLen(s: seq<bv8>): (n: nat)
    ensures n <= |s| && 0 !in s[..n]
    ensures n < |s| ==> s[n] == 0
  {
    if s == [] || s[0] == 0 then 0 else 1 + StrLen(s[1..])
  }
}
