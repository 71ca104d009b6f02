/** What follows from the choice of tokens for files one can name. */
module PolicyFacts {
  import Division
  import opened Lz77
  import opened HashChains
  import opened Matching
  import opened Policy

  /** A file of one byte over and over. */
  ghost predicate Uniform(input: seq<bv8>) {
    |input| >= 5 && forall i :: 0 <= i < |input| ==> input[i] == input[0]
  }

  /** How such a file begins in tokens. Position 0 is never matched, so the match begins at 2. */
  function Opening(input: seq<bv8>): seq<Token>
    requires |input| >= 5
  {
    [Literal(input[0]), Literal(input[0]), Match(1, Least(|input| - 2, MAX_MATCH))]
  }

  lemma UniformSought(input: seq<bv8>, ins: set<int>, w: nat, c: Config, chain: nat, edge: bool)
    requires Uniform(input) && w >= 512 && c.nice <= MAX_MATCH && 1 in ins
    ensures Latest(input, ins, Key(input, 2), 2) == 1 && InSight(w, 2, 1, edge)
    ensures Sought(input, ins, 2, 1, w, c.nice, chain, 2) == Find(Least(|input| - 2, MAX_MATCH), 1)
  {
    var n := Agree(input, 1, 2);
    assert SameAt(input, 1, 2, n) || 2 + n == |input|;
    assert HashAt(input, 1) == HashAt(input, 2);
  }

  ghost predicate GreedyBegins(input: seq<bv8>, k: nat, s: Greedy)
    requires |input| >= 5
  {
    match k
    case 0 => s == Greedy(0, {}, [])
    case 1 => s == Greedy(1, {0}, [Literal(input[0])])
    case 2 => s == Greedy(2, {0, 1}, [Literal(input[0]), Literal(input[0])])
    case _ => s.p > 2 && Opening(input) <= s.out
  }

  lemma GreedyBeginsNext(input: seq<bv8>, w: nat, c: Config, edge: bool, k: nat, s: Greedy)
    requires Uniform(input) && w >= 512 && c.nice <= MAX_MATCH && GreedyBegins(input, k, s)
    ensures GreedyBegins(input, k + 1, GreedyStep(input, w, c, edge, s))
  {
    if k == 2 {
      UniformSought(input, {0, 1, 2}, w, c, c.chain, edge);
    }
  }

  lemma {:induction false} UniformGreedy(input: seq<bv8>, w: nat, c: Config, edges: seq<bool>)
    requires Uniform(input) && w >= 512 && c.nice <= MAX_MATCH
    ensures GreedyBegins(input, |edges|, GreedyRun(input, w, c, edges))
  {
    if edges != [] {
      var last := |edges| - 1;
      UniformGreedy(input, w, c, edges[..last]);
      GreedyBeginsNext(input, w, c, edges[last], last, GreedyRun(input, w, c, edges[..last]));
    }
  }

  ghost predicate LazyBegins(input: seq<bv8>, k: nat, s: Lazy)
    requires |input| >= 5
  {
    match k
    case 0 => s == Lazy(0, {}, MIN_MATCH - 1, 0, false, [])
    case 1 => s == Lazy(1, {0}, MIN_MATCH - 1, 0, true, [])
    case 2 => s == Lazy(2, {0, 1}, MIN_MATCH - 1, 0, true, [Literal(input[0])])
    case 3 => s == Lazy(3, {0, 1, 2}, Least(|input| - 2, MAX_MATCH), 1, true, [Literal(input[0]), Literal(input[0])])
    case _ => s.p > 3 && Opening(input) <= s.out
  }

  lemma LazyBeginsNext(input: seq<bv8>, w: nat, c: Config, edge: bool, k: nat, s: Lazy)
    requires Uniform(input) && w >= 512 && c.nice <= MAX_MATCH && MIN_MATCH <= c.lazy <= MAX_MATCH
    requires LazyBegins(input, k, s)
    ensures LazyBegins(input, k + 1, LazyStep(input, w, c, edge, s))
  {
    if k == 2 {
      UniformSought(input, {0, 1, 2}, w, c, if MIN_MATCH - 1 >= c.good then c.chain / 4 else c.chain, edge);
    } else if k == 3 {
      UniformUnbeaten(input, w, c, edge, s);
    }
  }

  /** At the next position one byte less is left, so the pending match is not beaten. */
  lemma UniformUnbeaten(input: seq<bv8>, w: nat, c: Config, edge: bool, s: Lazy)
    requires Uniform(input) && MIN_MATCH <= c.lazy <= MAX_MATCH && s.p == 3
    requires s.len == Least(|input| - 2, MAX_MATCH)
    ensures LazyFind(input, w, c, With(input, s.ins, 3, 4), 3, s.len, edge).len <= s.len
  {
    hide With, Chain, Latest, Key;
    var ins := With(input, s.ins, 3, 4);
    if 3 + MIN_MATCH <= |input| {
      var h := Latest(input, ins, Key(input, 3), 3);
      if s.len < c.lazy && InSight(w, 3, h, edge) {
        var chain := if s.len >= c.good then c.chain / 4 else c.chain;
        BestUnbeaten(input, 3, Chain(input, ins, h, Floor(w, 3), chain), Least(c.nice, |input| - 3), Find(s.len, -1));
      }
    }
  }

  lemma {:induction false} UniformLazy(input: seq<bv8>, w: nat, c: Config, edges: seq<bool>)
    requires Uniform(input) && w >= 512 && c.nice <= MAX_MATCH && MIN_MATCH <= c.lazy <= MAX_MATCH
    ensures LazyBegins(input, |edges|, LazyRun(input, w, c, edges))
  {
    if edges != [] {
      var last := |edges| - 1;
      UniformLazy(input, w, c, edges[..last]);
      LazyBeginsNext(input, w, c, edges[last], last, LazyRun(input, w, c, edges[..last]));
    }
  }

  /** At every level a file of five or more equal bytes becomes two literals and then a match of the byte
      before, as long as can be. */
  lemma UniformMatched(w: nat, input: seq<bv8>, level: nat, edges: seq<bool>, out: seq<Token>)
    requires Uniform(input) && w >= 512 && Chosen(w, input, level, edges, out)
    ensures [Literal(input[0]), Literal(input[0]), Match(1, Least(|input| - 2, MAX_MATCH))] <= out
  {
    hide GreedyRun, LazyRun, Numbers;
    if level <= 3 {
      UniformGreedy(input, w, Numbers(level), edges);
    } else {
      UniformLazy(input, w, Numbers(level), edges);
    }
  }

  /** In a file that is not longer than this nothing depends on how the window moves. */
  lemma EdgeIrrelevant(input: seq<bv8>, w: nat, p: nat, h: int, edge: bool, other: bool)
    requires p < |input| <= w + MaxDistance(w)
    ensures InSight(w, p, h, edge) == InSight(w, p, h, other)
  {
    if 0 < h < w {
      Division.Quotient(h, w, 0, h);
    }
  }

  /** Each position that has been passed is inserted by the lazy run, if three bytes are left there. */
  lemma {:induction false} LazyInsertsAll(input: seq<bv8>, w: nat, c: Config, edges: seq<bool>)
    requires MIN_MATCH <= c.lazy <= MAX_MATCH
    ensures var s := LazyRun(input, w, c, edges); s.ins == With(input, {}, 0, s.p)
  {
    hide LazyFind;
    if edges != [] {
      var last := |edges| - 1;
      LazyInsertsAll(input, w, c, edges[..last]);
      var s := LazyRun(input, w, c, edges[..last]);
      if s.p < |input| {
        WithOn(input, 0, s.p, s.p + 1);
        WithOn(input, 0, s.p + 1, s.p + s.len - 1);
      }
    }
  }

  lemma {:induction false} WithOn(input: seq<bv8>, a: int, b: int, c: int)
    requires a <= b
    ensures With(input, With(input, {}, a, b), b, c) == if b <= c then With(input, {}, a, c) else With(input, {}, a, b)
    decreases c - b
  {
    if b < c {
      WithOn(input, a, b, c - 1);
    }
  }

  lemma StepsAlike(input: seq<bv8>, w: nat, c: Config, s: Greedy, z: Lazy, edge: bool, other: bool)
    requires |input| <= w + MaxDistance(w)
    ensures GreedyStep(input, w, c, edge, s) == GreedyStep(input, w, c, other, s)
    ensures LazyStep(input, w, c, edge, z) == LazyStep(input, w, c, other, z)
  {
    hide With, Sought, Latest, Key, InSight;
    forall p: nat, h: int | p < |input|
      ensures InSight(w, p, h, edge) == InSight(w, p, h, other)
    {
      EdgeIrrelevant(input, w, p, h, edge, other);
    }
  }

  /** Runs of as many turns are the same, and a run that has reached the end stays there. */
  lemma {:induction false} RunsAlike(input: seq<bv8>, w: nat, c: Config, e: seq<bool>, f: seq<bool>)
    requires |input| <= w + MaxDistance(w) && |e| <= |f|
    ensures |e| == |f| || GreedyRun(input, w, c, e).p >= |input| ==>
              GreedyRun(input, w, c, e) == GreedyRun(input, w, c, f)
    ensures |e| == |f| || LazyRun(input, w, c, e).p >= |input| ==> LazyRun(input, w, c, e) == LazyRun(input, w, c, f)
    decreases |f|
  {
    hide GreedyStep, LazyStep;
    if f != [] {
      var k, m := |e| - 1, |f| - 1;
      if |e| < |f| {
        RunsAlike(input, w, c, e, f[..m]);
        StaysAtEnd(input, w, c, GreedyRun(input, w, c, e), LazyRun(input, w, c, e), f[m]);
      } else {
        RunsAlike(input, w, c, e[..k], f[..m]);
        StepsAlike(input, w, c, GreedyRun(input, w, c, e[..k]), LazyRun(input, w, c, e[..k]), e[k], f[m]);
      }
    }
  }

  lemma StaysAtEnd(input: seq<bv8>, w: nat, c: Config, s: Greedy, z: Lazy, edge: bool)
    ensures s.p >= |input| ==> GreedyStep(input, w, c, edge, s) == s
    ensures z.p >= |input| ==> LazyStep(input, w, c, edge, z) == z
  {
  }

  /** For a file not longer than that the tokens are determined by the file and the level. */
  lemma ChosenOnce(input: seq<bv8>, w: nat, level: nat, e: seq<bool>, f: seq<bool>, out: seq<Token>, other: seq<Token>)
    requires |input| <= w + MaxDistance(w)
    requires Chosen(w, input, level, e, out) && Chosen(w, input, level, f, other)
    ensures out == other
  {
    hide GreedyRun, LazyRun, Numbers;
    if |e| <= |f| {
      RunsAlike(input, w, Numbers(level), e, f);
    } else {
      RunsAlike(input, w, Numbers(level), f, e);
    }
  }
}
