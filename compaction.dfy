/**
 * The compaction step of the misclick table in src/lookalikes.rs: the
 * neighbour slots of one table row are rearranged in place so that the
 * characters come first, in their order, and the NUL padding after them,
 * letting a reader stop at the first NUL.
 */
module Compaction {
  import opened Grid

  /** `s` with its non-NUL characters first, in their original order, and its NULs after them. */
  function MovedNulsToEnd(s: string): (r: string)
    ensures |r| == |s|
  {
    NonNul(s) + Nuls(|s| - |NonNul(s)|)
  }

  /** Compaction keeps exactly the characters, in their order. */
  lemma NonNulMoved(s: string)
    ensures NonNul(MovedNulsToEnd(s)) == NonNul(s)
  {
    NonNulAppend(NonNul(s), Nuls(|s| - |NonNul(s)|));
    NonNulNuls(|s| - |NonNul(s)|);
    NonNulIdempotent(s);
  }

  /** The compaction loop's picture after `k` slots of `s`: the kept characters, the NULs seen, then the slots not yet visited. */
  function Compacting(s: string, k: nat, shift: nat): (r: string)
    requires k <= |s|
  {
    NonNul(s[..k]) + Nuls(shift) + s[k..]
  }

  /** `t` with the characters at `x` and `y` exchanged (`<[T]>::swap`). */
  function Swapped(t: string, x: nat, y: nat): (r: string)
    requires x < |t| && y < |t|
    ensures |r| == |t| && r[x] == t[y] && r[y] == t[x]
    ensures forall j :: 0 <= j < |t| && j != x && j != y ==> r[j] == t[j]
  {
    t[x := t[y]][y := t[x]]
  }

  lemma NonNulStep(s: string, k: nat)
    requires k < |s|
    ensures NonNul(s[..k + 1]) == NonNul(s[..k]) + (if s[k] == '\0' then [] else [s[k]])
  {
    assert s[..k + 1][..k] == s[..k];
  }

  /** Before the first slot nothing has moved. */
  lemma CompactingStart(s: string)
    ensures Compacting(s, 0, 0) == s
  {
    assert s[..0] == [] && s[0..] == s;
  }

  /** After the last slot the row is compacted. */
  lemma CompactingEnd(s: string, shift: nat)
    requires shift + |NonNul(s)| == |s|
    ensures Compacting(s, |s|, shift) == MovedNulsToEnd(s)
  {
    assert s[..|s|] == s && s[|s|..] == [];
  }

  /** The next slot to visit still holds its original character. */
  lemma CompactingAt(s: string, k: nat, shift: nat)
    requires k < |s| && shift == k - |NonNul(s[..k])|
    ensures |Compacting(s, k, shift)| == |s| && Compacting(s, k, shift)[k] == s[k]
  {
    assert |NonNul(s[..k]) + Nuls(shift)| == k;
  }

  /** A NUL slot just widens the run of NULs. */
  lemma CompactNul(s: string, k: nat, shift: nat)
    requires k < |s| && s[k] == '\0'
    ensures Compacting(s, k, shift) == Compacting(s, k + 1, shift + 1)
  {
    NonNulStep(s, k);
    assert s[k..] == [s[k]] + s[k + 1..];
    assert Nuls(shift) + [s[k]] == Nuls(shift + 1);
  }

  /** A kept slot swapped with the first NUL of the run moves the run one place right. */
  lemma CompactKeep(s: string, k: nat, shift: nat)
    requires k < |s| && s[k] != '\0' && shift == k - |NonNul(s[..k])|
    ensures shift <= k
    ensures Swapped(Compacting(s, k, shift), k, k - shift) == Compacting(s, k + 1, shift)
  {
    NonNulStep(s, k);
    var m := |NonNul(s[..k])|;
    var t := Compacting(s, k, shift);
    var u := Compacting(s, k + 1, shift);
    var w := Swapped(t, k, m);
    assert |w| == |u|;
    forall j | 0 <= j < |u| ensures w[j] == u[j] {
      if j < m {
      } else if j == m {
      } else if j <= k {
      } else {
        assert t[j] == s[j] == u[j];
      }
    }
  }

  /** Exchanges two cells of one row segment. */
  method SwapCells(res: array2<char>, i: nat, lo: nat, n: nat, x: nat, y: nat)
    requires i < res.Length0 && lo + n <= res.Length1 && x < n && y < n
    modifies res
    ensures Segment(res, i, lo, n) == Swapped(old(Segment(res, i, lo, n)), x, y)
    ensures forall a, b :: 0 <= a < res.Length0 && 0 <= b < res.Length1 && !(a == i && lo <= b < lo + n) ==>
              res[a, b] == old(res[a, b])
  {
    res[i, lo + x], res[i, lo + y] := res[i, lo + y], res[i, lo + x];
  }

  /**
   * The compaction loop: moves the NULs among the `n` slots of row `i`
   * starting at column `lo` to the end, keeping the other characters in their
   * order (a stable partition).
   */
  method MoveNulsToEnd(res: array2<char>, i: nat, lo: nat, n: nat)
    requires i < res.Length0 && lo + n <= res.Length1
    modifies res
    ensures Segment(res, i, lo, n) == MovedNulsToEnd(old(Segment(res, i, lo, n)))
    ensures forall a, b :: 0 <= a < res.Length0 && 0 <= b < res.Length1 && !(a == i && lo <= b < lo + n) ==>
              res[a, b] == old(res[a, b])
  {
    ghost var s := Segment(res, i, lo, n);
    CompactedStart(res, i, lo, n);
    var shift := 0;
    for k := 0 to n
      invariant CompactedUpTo(res, i, lo, s, k, shift)
      invariant forall a, b :: 0 <= a < res.Length0 && 0 <= b < res.Length1 && !(a == i && lo <= b < lo + n) ==>
                  res[a, b] == old(res[a, b])
    {
      shift := CompactSlot(res, i, lo, n, s, k, shift);
    }
    CompactedEnd(res, i, lo, s, shift);
  }

  /**
   * The state of the compaction loop over the slots of row `i` from column
   * `lo`, which held `s`, after `k` of them: `shift` NULs seen so far.
   */
  ghost predicate CompactedUpTo(res: array2<char>, i: nat, lo: nat, s: string, k: nat, shift: nat)
    reads res
  {
    i < res.Length0 && lo + |s| <= res.Length1 && k <= |s| &&
    shift + |NonNul(s[..k])| == k &&
    Segment(res, i, lo, |s|) == Compacting(s, k, shift)
  }

  lemma CompactedStart(res: array2<char>, i: nat, lo: nat, n: nat)
    requires i < res.Length0 && lo + n <= res.Length1
    ensures CompactedUpTo(res, i, lo, Segment(res, i, lo, n), 0, 0)
  {
    CompactingStart(Segment(res, i, lo, n));
  }

  lemma CompactedEnd(res: array2<char>, i: nat, lo: nat, s: string, shift: nat)
    requires CompactedUpTo(res, i, lo, s, |s|, shift)
    ensures Segment(res, i, lo, |s|) == MovedNulsToEnd(s)
  {
    assert s[..|s|] == s;
    CompactingEnd(s, shift);
  }

  /** One turn of the compaction loop, at slot `k`. */
  method CompactSlot(res: array2<char>, i: nat, lo: nat, n: nat, ghost s: string, k: nat, shift: nat) returns (shift': nat)
    requires CompactedUpTo(res, i, lo, s, k, shift) && k < n == |s|
    modifies res
    ensures CompactedUpTo(res, i, lo, s, k + 1, shift')
    ensures forall a, b :: 0 <= a < res.Length0 && 0 <= b < res.Length1 && !(a == i && lo <= b < lo + n) ==>
              res[a, b] == old(res[a, b])
  {
    NonNulStep(s, k);
    CompactingAt(s, k, shift);
    assert res[i, lo + k] == Segment(res, i, lo, n)[k] == s[k];
    if res[i, lo + k] == '\0' {
      CompactNul(s, k, shift);
      shift' := shift + 1;
    } else {
      CompactKeep(s, k, shift);
      SwapCells(res, i, lo, n, k, k - shift);
      shift' := shift;
    }
  }
}
