/**
 * A 32-bit flag mask, represented by the set of positions of its one bits:
 * `|` is union, `& ~` is difference, and `(a & b) != 0` is a non-empty
 * intersection. The ComponentType flags of the entity registry are masks.
 */
module BitMask {

  type BitIndex = i: nat | i < 32

  type Mask = set<BitIndex>

  /** `1 << i` */
  function Flag(i: BitIndex): (m: Mask)
    ensures i in m && |m| == 1
  {
    {i}
  }

  /** `bits |= t` */
  function SetBits(bits: Mask, t: Mask): (r: Mask)
    ensures forall i :: i in r <==> i in bits || i in t
  {
    bits + t
  }

  /** `bits &= ~t` */
  function ClearBits(bits: Mask, t: Mask): (r: Mask)
    ensures forall i :: i in r <==> i in bits && i !in t
  {
    bits - t
  }

  /** `(bits & q) != 0`: the mask has at least one bit in common with the query. */
  predicate Shares(bits: Mask, q: Mask)
  {
    exists i :: i in bits && i in q
  }

  /** `(q & t) == 0` */
  predicate Disjoint(q: Mask, t: Mask)
  {
    forall i :: i in q ==> i !in t
  }

  /** Sharing a bit is a non-empty intersection. */
  lemma SharesIffMeet(bits: Mask, q: Mask)
    ensures Shares(bits, q) <==> bits * q != {}
  {
    if bits * q != {} {
      var i :| i in bits * q;
      assert i in bits && i in q;
    }
    if Shares(bits, q) {
      var i :| i in bits && i in q;
      assert i in bits * q;
    }
  }

  lemma EmptySharesNothing(q: Mask)
    ensures !Shares({}, q)
  {
  }

  lemma SetBitsShares(bits: Mask, t: Mask)
    requires t != {}
    ensures Shares(SetBits(bits, t), t)
  {
    var i :| i in t;
    assert i in SetBits(bits, t);
  }

  lemma ClearBitsSharesNothing(bits: Mask, t: Mask)
    ensures !Shares(ClearBits(bits, t), t)
  {
  }

  /** Setting bits does not change the answer to a query disjoint from them. */
  lemma SetBitsDisjoint(bits: Mask, t: Mask, q: Mask)
    requires Disjoint(q, t)
    ensures Shares(SetBits(bits, t), q) == Shares(bits, q)
  {
    if Shares(SetBits(bits, t), q) {
      var i :| i in SetBits(bits, t) && i in q;
      assert i in bits;
    }
  }

  /** Clearing bits does not change the answer to a query disjoint from them. */
  lemma ClearBitsDisjoint(bits: Mask, t: Mask, q: Mask)
    requires Disjoint(q, t)
    ensures Shares(ClearBits(bits, t), q) == Shares(bits, q)
  {
    if Shares(bits, q) {
      var i :| i in bits && i in q;
      assert i in ClearBits(bits, t);
    }
  }
}
