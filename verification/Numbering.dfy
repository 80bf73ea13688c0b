/**
 Numbers given out lowest first, as the scans over the tables do, and how many
 slots of an allocation table are FREE or TAKEN.
 */
module Numbering {
  import opened StoreModel

  function Min(a: int, b: int): int { if a < b then a else b }

  /** The lowest number from i on, below n, that is not in use; -1 if there is none. */
  function LowestFree<T>(used: map<int, T>, i: nat, n: nat): (r: int)
    requires i <= n
    ensures r == -1 || (i <= r < n && r !in used)
    decreases n - i
  {
    if i == n then -1
    else if i !in used then i
    else LowestFree(used, i + 1, n)
  }

  /** It is the first FREE slot of a table that agrees on what is in use. */
  lemma {:induction false} LowestFreeSame<T>(t: seq<Allocation>, used: map<int, T>, i: nat)
    requires i <= |t|
    requires forall h :: i <= h < |t| ==> (h in used <==> t[h] == TAKEN)
    ensures LowestFree(used, i, |t|) == FirstFree(t, i)
    decreases |t| - i
  {
    if i < |t| && t[i] == TAKEN {
      LowestFreeSame(t, used, i + 1);
    }
  }

  /** How many slots of a table are v. */
  function Count(t: seq<Allocation>, v: Allocation): (n: nat)
    ensures n <= |t|
  {
    if t == [] then 0 else Count(t[..|t| - 1], v) + (if t[|t| - 1] == v then 1 else 0)
  }

  lemma {:induction false} CountUpdate(t: seq<Allocation>, i: nat, x: Allocation, v: Allocation)
    requires i < |t|
    ensures Count(t[i := x], v) == Count(t, v) + (if x == v then 1 else 0) - (if t[i] == v then 1 else 0)
  {
    var n := |t| - 1;
    if i == n {
      assert t[i := x][..n] == t[..n];
    } else {
      assert t[i := x][..n] == t[..n][i := x];
      CountUpdate(t[..n], i, x, v);
    }
  }

  lemma {:induction false} CountPositive(t: seq<Allocation>, i: nat, v: Allocation)
    requires i < |t| && t[i] == v
    ensures Count(t, v) > 0
  {
    if i < |t| - 1 {
      CountPositive(t[..|t| - 1], i, v);
    }
  }

  lemma {:induction false} CountUniform(t: seq<Allocation>, x: Allocation, v: Allocation)
    requires forall i :: 0 <= i < |t| ==> t[i] == x
    ensures Count(t, v) == if x == v then |t| else 0
  {
    if t != [] {
      CountUniform(t[..|t| - 1], x, v);
    }
  }
}
