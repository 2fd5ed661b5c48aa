/** Shared vocabulary: optional values, JavaScript's Math functions, counting. */
module Prelude {
  datatype Option<+T> = None | Some(value: T)

  /** The value, or `default` when there is none: JavaScript's `??`. */
  function Or<T>(o: Option<T>, default: T): T {
    match o
    case Some(v) => v
    case None => default
  }

  function Get<K, V>(m: map<K, V>, k: K): Option<V> {
    if k in m then Some(m[k]) else None
  }

  function Max(a: int, b: int): int { if a < b then b else a }

  function Min(a: real, b: real): real { if a < b then a else b }

  /** Math.ceil on exact reals; Math.floor is Dafny's own `.Floor`. */
  function Ceil(x: real): (c: int)
    ensures c as real - 1.0 < x <= c as real
  {
    -((-x).Floor)
  }

  /** Where `c` first occurs in `s`, or its length when it does not. */
  function IndexOf<T(==)>(s: seq<T>, c: T): (i: nat)
    ensures i <= |s| && c !in s[..i] && (i < |s| ==> s[i] == c)
  {
    if s == [] || s[0] == c then 0 else
      assert s == [s[0]] + s[1..];
      1 + IndexOf(s[1..], c)
  }

  lemma IndexOfUnique<T>(s: seq<T>, c: T, i: nat)
    requires i < |s| && s[i] == c && c !in s[..i]
    ensures IndexOf(s, c) == i
  {
  }

  /** All elements of `xs` whose mark is set, in order. */
  function Select<T>(xs: seq<T>, keep: seq<bool>): seq<T>
    requires |xs| == |keep|
  {
    if xs == [] then []
    else
      var n := |xs| - 1;
      Select(xs[..n], keep[..n]) + if keep[n] then [xs[n]] else []
  }

  lemma SelectOneMore<T>(xs: seq<T>, keep: seq<bool>, x: T, k: bool)
    requires |xs| == |keep|
    ensures Select(xs + [x], keep + [k]) == if k then Select(xs, keep) + [x] else Select(xs, keep)
  {
  }

  /** The number of indices below `n` at which `p` holds. */
  function Count(p: nat -> bool, n: nat): (c: nat)
    ensures c <= n
  {
    if n == 0 then 0 else Count(p, n - 1) + if p(n - 1) then 1 else 0
  }

  /** A cover of `p` by `q` and `r` bounds its count by their sum. */
  lemma {:induction false} CountCover(p: nat -> bool, q: nat -> bool, r: nat -> bool, n: nat)
    requires forall i: nat | i < n :: p(i) ==> q(i) || r(i)
    ensures Count(p, n) <= Count(q, n) + Count(r, n)
  {
    if n > 0 { CountCover(p, q, r, n - 1); }
  }

  /** An index counted by `q` but not by `p` makes the count of `p` smaller. */
  lemma {:induction false} CountMisses(p: nat -> bool, q: nat -> bool, n: nat, miss: nat)
    requires forall i: nat | i < n :: p(i) ==> q(i)
    requires miss < n && q(miss) && !p(miss)
    ensures Count(p, n) < Count(q, n)
  {
    if miss < n - 1 { CountMisses(p, q, n - 1, miss); } else { CountGrows(p, q, n - 1); }
  }

  lemma {:induction false} CountGrows(p: nat -> bool, q: nat -> bool, n: nat)
    requires forall i: nat | i < n :: p(i) ==> q(i)
    ensures Count(p, n) <= Count(q, n)
  {
    if n > 0 { CountGrows(p, q, n - 1); }
  }

  /** A cover by `q` and `r` that needs not all of `q` leaves one to spare. */
  lemma CountCoverSpare(p: nat -> bool, q: nat -> bool, r: nat -> bool, kept: nat -> bool, n: nat, spare: nat)
    requires forall i: nat | i < n :: (p(i) ==> kept(i) || r(i)) && (kept(i) ==> q(i))
    requires spare < n && q(spare) && !kept(spare)
    ensures Count(p, n) < Count(q, n) + Count(r, n)
  {
    CountCover(p, kept, r, n);
    CountMisses(kept, q, n, spare);
  }

  /** Counting looks only at the indices below its bound. */
  lemma {:induction false} CountSame(p: nat -> bool, q: nat -> bool, n: nat)
    requires forall i: nat | i < n :: p(i) == q(i)
    ensures Count(p, n) == Count(q, n)
  {
    if n > 0 { CountSame(p, q, n - 1); }
  }

  /** One more index adds its own mark. */
  lemma CountOneMore(p: nat -> bool, q: nat -> bool, n: nat)
    requires forall i: nat | i < n :: p(i) == q(i)
    ensures Count(p, n + 1) == Count(q, n) + if p(n) then 1 else 0
  {
    CountSame(p, q, n);
  }

  /** Counting a predicate that holds from `first` on. */
  lemma {:induction false} CountFrom(p: nat -> bool, n: nat, first: nat)
    requires forall i: nat | i < n :: p(i) <==> first <= i
    ensures Count(p, n) == if first <= n then n - first else 0
  {
    if n > 0 { CountFrom(p, n - 1, first); }
  }
}
