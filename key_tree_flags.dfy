/**
 * The flag sets of the key tree: which columns a tree shows
 * (GpgKeyTreeColumn) and which keys it lists (GpgKeyTreeDisplayMode), both
 * scoped enumerations over a 32-bit unsigned int combined bit by bit.
 */
module KeyTreeFlags {

  /** The underlying unsigned int of either enumeration. */
  type Flags = bv32

  // GpgKeyTreeColumn
  const ColumnNone: Flags := 0
  const ColumnType: Flags := 1 << 1
  const ColumnIdentity: Flags := 1 << 2
  const ColumnKeyId: Flags := 1 << 3
  const ColumnUsage: Flags := 1 << 4
  const ColumnAlgo: Flags := 1 << 5
  const ColumnCreateDate: Flags := 1 << 6
  const ColumnAll: Flags := !0

  // GpgKeyTreeDisplayMode
  const DisplayNone: Flags := 0
  const DisplayPublicKey: Flags := 1 << 0
  const DisplayPrivateKey: Flags := 1 << 1
  const DisplayFavorites: Flags := 1 << 2
  const DisplayAll: Flags := !0

  /** The named columns other than none and all. */
  const NamedColumns: seq<Flags> := [ColumnType, ColumnIdentity, ColumnKeyId, ColumnUsage, ColumnAlgo, ColumnCreateDate]

  /** The named display modes other than none and all. */
  const NamedDisplayModes: seq<Flags> := [DisplayPublicKey, DisplayPrivateKey, DisplayFavorites]

  /** The single-bit flag `bit` is set in `x`. */
  predicate HasBit(x: Flags, bit: Flags)
  {
    x & bit != 0
  }

  /** Exactly one bit is set. */
  predicate SingleBit(x: Flags)
  {
    x != 0 && x & (x - 1) == 0
  }

  /** A bit is in a union when it is in either side. */
  lemma OrBit(lhs: Flags, rhs: Flags, bit: Flags)
    ensures HasBit(lhs | rhs, bit) <==> HasBit(lhs, bit) || HasBit(rhs, bit)
  {
    assert (lhs | rhs) & bit == (lhs & bit) | (rhs & bit);
  }

  /** A single bit is in an intersection when it is in both sides. */
  lemma AndBit(lhs: Flags, rhs: Flags, bit: Flags)
    requires SingleBit(bit)
    ensures HasBit(lhs & rhs, bit) <==> HasBit(lhs, bit) && HasBit(rhs, bit)
  {
  }

  /** A single bit is in a complement when it is not in the operand. */
  lemma NotBit(hs: Flags, bit: Flags)
    requires SingleBit(bit)
    ensures HasBit(!hs, bit) <==> !HasBit(hs, bit)
  {
  }

  /** GpgKeyTreeColumn operator|: a bit is in the result when it is in either operand. */
  function ColumnOr(lhs: Flags, rhs: Flags): (r: Flags)
    ensures forall bit :: SingleBit(bit) ==> (HasBit(r, bit) <==> HasBit(lhs, bit) || HasBit(rhs, bit))
  {
    forall bit | SingleBit(bit) ensures HasBit(lhs | rhs, bit) <==> HasBit(lhs, bit) || HasBit(rhs, bit) {
      OrBit(lhs, rhs, bit);
    }
    lhs | rhs
  }

  /** GpgKeyTreeColumn operator&: a bit is in the result when it is in both operands. */
  function ColumnAnd(lhs: Flags, rhs: Flags): (r: Flags)
    ensures forall bit :: SingleBit(bit) ==> (HasBit(r, bit) <==> HasBit(lhs, bit) && HasBit(rhs, bit))
  {
    forall bit | SingleBit(bit) ensures HasBit(lhs & rhs, bit) <==> HasBit(lhs, bit) && HasBit(rhs, bit) {
      AndBit(lhs, rhs, bit);
    }
    lhs & rhs
  }

  /** GpgKeyTreeColumn operator~: a bit is in the result when it is not in the operand. */
  function ColumnNot(hs: Flags): (r: Flags)
    ensures forall bit :: SingleBit(bit) ==> (HasBit(r, bit) <==> !HasBit(hs, bit))
  {
    forall bit | SingleBit(bit) ensures HasBit(!hs, bit) <==> !HasBit(hs, bit) {
      NotBit(hs, bit);
    }
    !hs
  }

  /**
   * GpgKeyTreeColumn operator|=: the new value of the left operand, and
   * the value the returned reference denotes; both are lhs | rhs.
   */
  function ColumnOrAssign(lhs: Flags, rhs: Flags): (r: (Flags, Flags))
    ensures r.0 == r.1 == ColumnOr(lhs, rhs)
  {
    var updated := ColumnOr(lhs, rhs);
    (updated, updated)
  }

  /** GpgKeyTreeColumn operator&=: the new left operand and the returned value are both lhs & rhs. */
  function ColumnAndAssign(lhs: Flags, rhs: Flags): (r: (Flags, Flags))
    ensures r.0 == r.1 == ColumnAnd(lhs, rhs)
  {
    var updated := ColumnAnd(lhs, rhs);
    (updated, updated)
  }

  /** GpgKeyTreeDisplayMode operator|: a bit is in the result when it is in either operand. */
  function DisplayOr(lhs: Flags, rhs: Flags): (r: Flags)
    ensures forall bit :: SingleBit(bit) ==> (HasBit(r, bit) <==> HasBit(lhs, bit) || HasBit(rhs, bit))
  {
    forall bit | SingleBit(bit) ensures HasBit(lhs | rhs, bit) <==> HasBit(lhs, bit) || HasBit(rhs, bit) {
      OrBit(lhs, rhs, bit);
    }
    lhs | rhs
  }

  /** GpgKeyTreeDisplayMode operator|=: the new left operand and the returned value are both lhs | rhs. */
  function DisplayOrAssign(lhs: Flags, rhs: Flags): (r: (Flags, Flags))
    ensures r.0 == r.1 == DisplayOr(lhs, rhs)
  {
    var updated := DisplayOr(lhs, rhs);
    (updated, updated)
  }

  /**
   * GpgKeyTreeDisplayMode operator&: a truth value, not a flag set; true
   * exactly when some bit is set in both operands.
   */
  function DisplayAnd(lhs: Flags, rhs: Flags): (r: bool)
    ensures r <==> exists bit :: SingleBit(bit) && HasBit(lhs, bit) && HasBit(rhs, bit)
  {
    SharedBit(lhs, rhs);
    lhs & rhs != 0
  }

  /** Two flag sets overlap exactly when some single bit is in both: the lowest common bit is a witness. */
  lemma SharedBit(lhs: Flags, rhs: Flags)
    ensures lhs & rhs != 0 <==> exists bit :: SingleBit(bit) && HasBit(lhs, bit) && HasBit(rhs, bit)
  {
    var both := lhs & rhs;
    if both != 0 {
      var lowest := both & (0 - both);
      assert SingleBit(lowest) && HasBit(lhs, lowest) && HasBit(rhs, lowest);
    }
  }

  /** The named columns are single bits, pairwise different, and none of them is bit 0 (the value 1). */
  lemma NamedColumnsAreBits()
    ensures forall k :: 0 <= k < |NamedColumns| ==> SingleBit(NamedColumns[k]) && !HasBit(NamedColumns[k], 1)
    ensures forall j, k :: 0 <= j < k < |NamedColumns| ==> ColumnAnd(NamedColumns[j], NamedColumns[k]) == ColumnNone
  {
  }

  /** The named display modes are single bits and pairwise different. */
  lemma NamedDisplayModesAreBits()
    ensures forall k :: 0 <= k < |NamedDisplayModes| ==> SingleBit(NamedDisplayModes[k])
    ensures forall j, k :: 0 <= j < k < |NamedDisplayModes| ==> !DisplayAnd(NamedDisplayModes[j], NamedDisplayModes[k])
  {
  }

  /** kALL keeps every column under &, kNONE keeps every column under |, and ~ swaps the two. */
  lemma ColumnAllAndNone(c: Flags)
    ensures ColumnAnd(ColumnAll, c) == c && ColumnAnd(c, ColumnAll) == c
    ensures ColumnOr(ColumnNone, c) == c && ColumnAnd(ColumnNone, c) == ColumnNone
    ensures ColumnNot(ColumnAll) == ColumnNone && ColumnNot(ColumnNone) == ColumnAll
    ensures ColumnNot(ColumnNot(c)) == c
  {
  }

  /** Removing a column with &= ~c leaves the other columns and drops c. */
  lemma ColumnRemove(set_: Flags, c: Flags)
    ensures ColumnAnd(ColumnAnd(set_, ColumnNot(c)), c) == ColumnNone
    ensures ColumnOr(ColumnAnd(set_, ColumnNot(c)), ColumnAnd(set_, c)) == set_
  {
  }

  /** Display-mode & with kNONE is false, with kALL holds for every mode but kNONE, and does not depend on operand order. */
  lemma DisplayAndFacts(m: Flags, n: Flags)
    ensures !DisplayAnd(DisplayNone, m) && !DisplayAnd(m, DisplayNone)
    ensures DisplayAnd(DisplayAll, m) <==> m != DisplayNone
    ensures DisplayAnd(m, n) == DisplayAnd(n, m)
    ensures DisplayAnd(m, m) <==> m != DisplayNone
  {
  }
}
