/**
 * Tile coordinates used as composite hash-table keys (include/components/coord.h):
 * an equality-style comparator and a 32-bit multiplicative hash.
 */
module Coords {
  import opened MachineInt

  datatype TileCoord = TileCoord(x: int, y: int)

  const X_MULTIPLIER: int := 73856093
  const Y_MULTIPLIER: int := 19349663

  /**
   * tilecoord_cmp: not an ordering but an equality test, 0 for "same key" and
   * 1 for "different key"; it never reports "less than".
   */
  function Cmp(a: TileCoord, b: TileCoord): (r: int)
    ensures r == 0 || r == 1
    ensures r == 0 <==> a == b
  {
    if a.x != b.x || a.y != b.y then 1 else 0
  }

  lemma CmpSymmetricReflexive(a: TileCoord, b: TileCoord)
    ensures Cmp(a, b) == Cmp(b, a)
    ensures Cmp(a, a) == 0
  {
  }

  /** Conversion of an `unsigned` value to its 32-bit pattern. */
  function Bits32(a: U32): bv32
  {
    a as bv32
  }

  /** The `^` of two `unsigned` values. */
  function Xor(a: bv32, b: bv32): (r: bv32)
    ensures b == 0 ==> r == a
    ensures a == 0 ==> r == b
    ensures a == b ==> r == 0
    ensures r == b ^ a
  {
    a ^ b
  }

  /** `(unsigned)(x * 73856093)`: the x contribution to the hash. */
  function XPart(x: int): (p: bv32)
    ensures x == 0 ==> p == 0
  {
    Bits32(Wrap32(x * X_MULTIPLIER))
  }

  /** `(unsigned)(y * 19349663)`: the y contribution to the hash. */
  function YPart(y: int): (p: bv32)
    ensures y == 0 ==> p == 0
  {
    Bits32(Wrap32(y * Y_MULTIPLIER))
  }

  /**
   * tilecoord_hash: the two contributions, each reduced modulo 2^32 the way
   * the C `int` multiplication behaves on the targets the game is built for,
   * combined with exclusive or.
   */
  function Hash(c: TileCoord): (h: bv32)
    ensures c.x == 0 && c.y == 0 ==> h == 0
    ensures c.y == 0 ==> h == XPart(c.x)
    ensures c.x == 0 ==> h == YPart(c.y)
    ensures XPart(c.x) == YPart(c.y) ==> h == 0
  {
    Xor(XPart(c.x), YPart(c.y))
  }

  /** The key functions agree: keys the comparator calls equal hash equally. */
  lemma CmpZeroImpliesEqualHash(a: TileCoord, b: TileCoord)
    ensures Cmp(a, b) == 0 ==> Hash(a) == Hash(b)
  {
  }

  lemma ModAddMultiple(a: int, k: int)
    ensures (a + TWO_32 * k) % TWO_32 == a % TWO_32
  {
    var q := a / TWO_32;
    var r := a % TWO_32;
    assert a == TWO_32 * q + r;
    assert a + TWO_32 * k == TWO_32 * (q + k) + r;
  }

  lemma MulModPeriodic(x: int, k: int)
    ensures Wrap32((x + TWO_32) * k) == Wrap32(x * k)
  {
    assert (x + TWO_32) * k == x * k + TWO_32 * k;
    ModAddMultiple(x * k, k);
  }

  /**
   * The hash only sees each coordinate modulo 2^32: shifting either
   * coordinate by 2^32 does not change it, so it is genuinely a 32-bit hash.
   */
  lemma {:induction false} HashPeriodic(x: int, y: int)
    ensures Hash(TileCoord(x + TWO_32, y)) == Hash(TileCoord(x, y))
    ensures Hash(TileCoord(x, y + TWO_32)) == Hash(TileCoord(x, y))
  {
    MulModPeriodic(x, X_MULTIPLIER);
    assert XPart(x + TWO_32) == XPart(x);
    MulModPeriodic(y, Y_MULTIPLIER);
    assert YPart(y + TWO_32) == YPart(y);
  }

  /** Negative coordinates hash through their two's-complement product. */
  lemma HashOfMinusOne()
    ensures Hash(TileCoord(-1, 0)) == (TWO_32 - X_MULTIPLIER) as bv32
    ensures Hash(TileCoord(0, -1)) == (TWO_32 - Y_MULTIPLIER) as bv32
  {
  }
}
