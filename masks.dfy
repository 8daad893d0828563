/** Boolean indexing, `df[mask]`: keep the rows whose mask entry is true, in
    their original order. Both `drop_duplicates` and the quality filter are
    this operation with different masks. */
module Masks {

  function Mask<T>(s: seq<T>, m: seq<bool>): (r: seq<T>)
    requires |m| == |s|
    ensures |r| == CountTrue(m) <= |s|
  {
    if |s| == 0 then []
    else Mask(s[..|s| - 1], m[..|s| - 1]) + (if m[|s| - 1] then [s[|s| - 1]] else [])
  }

  /** The number of true entries (`mask.sum()`). */
  function CountTrue(m: seq<bool>): nat {
    if |m| == 0 then 0 else CountTrue(m[..|m| - 1]) + (if m[|m| - 1] then 1 else 0)
  }

  function Not(m: seq<bool>): (r: seq<bool>)
    ensures |r| == |m| && forall i | 0 <= i < |m| :: r[i] == !m[i]
  {
    seq(|m|, i requires 0 <= i < |m| => !m[i])
  }

  /** The positions of the true entries, in increasing order. */
  function Positions(m: seq<bool>): seq<nat> {
    if |m| == 0 then []
    else Positions(m[..|m| - 1]) + (if m[|m| - 1] then [|m| - 1] else [])
  }

  predicate Increasing(p: seq<nat>) {
    forall k, l | 0 <= k < l < |p| :: p[k] < p[l]
  }

  /** `Positions(m)` lists exactly the true entries of `m`, each once, in order. */
  lemma {:induction false} PositionsSpec(m: seq<bool>)
    ensures |Positions(m)| == CountTrue(m)
    ensures Increasing(Positions(m))
    ensures forall k | 0 <= k < |Positions(m)| :: Positions(m)[k] < |m| && m[Positions(m)[k]]
    ensures forall i | 0 <= i < |m| && m[i] :: i in Positions(m)
  {
    if |m| > 0 {
      PositionsSpec(m[..|m| - 1]);
    }
  }

  /** A mask with no true entry has no positions. */
  lemma {:induction false} PositionsNone(m: seq<bool>)
    requires forall i | 0 <= i < |m| :: !m[i]
    ensures Positions(m) == []
  {
    if |m| > 0 {
      PositionsNone(m[..|m| - 1]);
    }
  }

  /** A mask with exactly one true entry, at `i`, has the single position `i`. */
  lemma {:induction false} PositionsSingle(m: seq<bool>, i: nat)
    requires i < |m| && m[i]
    requires forall j | 0 <= j < |m| && j != i :: !m[j]
    ensures Positions(m) == [i]
  {
    if i == |m| - 1 {
      PositionsNone(m[..|m| - 1]);
    } else {
      PositionsSingle(m[..|m| - 1], i);
    }
  }

  /** The masked sequence is the subsequence of `s` at `Positions(m)`: it keeps
      exactly the entries whose mask is true, and keeps their relative order. */
  lemma {:induction false} MaskSpec<T>(s: seq<T>, m: seq<bool>)
    requires |m| == |s|
    ensures |Mask(s, m)| == |Positions(m)| == CountTrue(m)
    ensures forall k | 0 <= k < |Mask(s, m)| :: Positions(m)[k] < |s| && Mask(s, m)[k] == s[Positions(m)[k]]
  {
    PositionsSpec(m);
    if |s| > 0 {
      MaskSpec(s[..|s| - 1], m[..|s| - 1]);
    }
  }

  /** Every masked-out entry counts once and every kept entry once. */
  lemma {:induction false} CountTrueNot(m: seq<bool>)
    ensures CountTrue(Not(m)) + CountTrue(m) == |m|
  {
    if |m| > 0 {
      CountTrueNot(m[..|m| - 1]);
      assert Not(m)[..|m| - 1] == Not(m[..|m| - 1]);
    }
  }

  /** An all-true mask keeps everything. */
  lemma {:induction false} MaskAllTrue<T>(s: seq<T>, m: seq<bool>)
    requires |m| == |s|
    requires forall i | 0 <= i < |m| :: m[i]
    ensures Mask(s, m) == s
  {
    if |s| > 0 {
      MaskAllTrue(s[..|s| - 1], m[..|s| - 1]);
    }
  }
}
