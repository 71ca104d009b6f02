/** Common prefixes of two strings in one sequence. */
module Matching {
  import opened Lz77

  predicate SameAt(w: seq<bv8>, a: nat, b: nat, i: nat) {
    a + i < |w| && b + i < |w| && w[a + i] == w[b + i]
  }

  /** Length of the common prefix of w at a and at b, counted from k and capped at MAX_MATCH. */
  function CommonFrom(w: seq<bv8>, a: nat, b: nat, k: nat): (n: nat)
    requires a + MAX_MATCH <= |w| && b + MAX_MATCH <= |w| && k <= MAX_MATCH
    ensures k <= n <= MAX_MATCH
    ensures forall i :: k <= i < n ==> SameAt(w, a, b, i)
    ensures n < MAX_MATCH ==> !SameAt(w, a, b, n)
    decreases MAX_MATCH - k
  {
    if k == MAX_MATCH || w[a + k] != w[b + k] then k else CommonFrom(w, a, b, k + 1)
  }

  function Common(w: seq<bv8>, a: nat, b: nat): nat
    requires a + MAX_MATCH <= |w| && b + MAX_MATCH <= |w|
  {
    CommonFrom(w, a, b, 0)
  }

  lemma CommonIs(w: seq<bv8>, a: nat, b: nat, n: nat)
    requires a + MAX_MATCH <= |w| && b + MAX_MATCH <= |w| && n <= MAX_MATCH
    requires forall i :: 0 <= i < n ==> SameAt(w, a, b, i)
    requires n < MAX_MATCH ==> !SameAt(w, a, b, n)
    ensures Common(w, a, b) == n
  {
  }

  /** One differing byte bounds the match length. */
  lemma CommonStops(w: seq<bv8>, a: nat, b: nat, n: nat)
    requires a + MAX_MATCH <= |w| && b + MAX_MATCH <= |w|
    requires n < MAX_MATCH ==> !SameAt(w, a, b, n)
    ensures Common(w, a, b) <= n
  {
  }
}
