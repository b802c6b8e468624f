/** Searching the slots of a fixed table, and counting those in use. */
module Counting {

  /** The first slot from `from` on with a property; the length when there is none. */
  function FirstWith<T>(s: seq<T>, has: T -> bool, from: nat): (r: nat)
    requires from <= |s|
    ensures from <= r <= |s| && (r < |s| ==> has(s[r]))
    ensures forall k :: from <= k < r ==> !has(s[k])
    decreases |s| - from
  {
    if from == |s| || has(s[from]) then from else FirstWith(s, has, from + 1)
  }

  function CountTo<T>(s: seq<T>, used: T -> bool, n: nat): nat
    requires n <= |s|
  {
    if n == 0 then 0 else CountTo(s, used, n - 1) + if used(s[n - 1]) then 1 else 0
  }

  /** Rewriting one slot changes the count by at most one. */
  lemma {:induction false} CountUpdate<T>(s: seq<T>, used: T -> bool, i: nat, x: T, n: nat)
    requires i < |s| && n <= |s|
    ensures CountTo(s[i := x], used, n)
            == CountTo(s, used, n) + if i < n then (if used(x) then 1 else 0) - (if used(s[i]) then 1 else 0) else 0
    decreases n
  {
    if n > 0 {
      CountUpdate(s, used, i, x, n - 1);
    }
  }

  /** The count is the capacity exactly when no slot is free, and zero exactly when all are. */
  lemma {:induction false} CountBounds<T>(s: seq<T>, used: T -> bool, n: nat)
    requires n <= |s|
    ensures CountTo(s, used, n) <= n
    ensures CountTo(s, used, n) == n <==> forall i :: 0 <= i < n ==> used(s[i])
    ensures CountTo(s, used, n) == 0 <==> forall i :: 0 <= i < n ==> !used(s[i])
    decreases n
  {
    if n > 0 {
      CountBounds(s, used, n - 1);
    }
  }
}
