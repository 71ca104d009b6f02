/** Which tokens the compressor of obj_zip/zip30/deflate.c chooses, said of the file alone: no window, no
    tables, no reads. A string is found again only if it was inserted; ins is the set of positions at
    which that was done. */
module Policy {
  import opened Options
  import opened Lz77
  import opened HashChains
  import opened Matching

  /** How hard to try: reduce the search above good, none above lazy, stop at nice, chain candidates. */
  datatype Config = Config(good: nat, lazy: nat, nice: nat, chain: nat)

  /** The numbers of each level; for levels 1 to 3 lazy bounds the matches whose strings are inserted. */
  function Numbers(level: nat): (c: Config)
    ensures MIN_MATCH <= c.lazy <= MAX_MATCH && c.chain >= 4 && c.good >= 4 && 8 <= c.nice <= MAX_MATCH
  {
    match level
    case 1 => Config(4, 4, 8, 4)
    case 2 => Config(4, 5, 16, 8)
    case 3 => Config(4, 6, 32, 32)
    case 4 => Config(4, 4, 16, 16)
    case 5 => Config(8, 16, 32, 32)
    case 6 => Config(8, 16, 128, 128)
    case 7 => Config(8, 32, 128, 256)
    case 8 => Config(32, 128, 258, 1024)
    case _ => Config(32, 258, 258, 4096)
  }

  /** A match of 258 bytes and one more string must still fit in the window. */
  function MaxDistance(w: nat): int { w - 262 }

  /** Length of the common prefix of the strings at q and p, counted from k: at most MAX_MATCH and not
      beyond the end of the file. */
  function AgreeFrom(input: seq<bv8>, q: nat, p: nat, k: nat): (n: nat)
    requires q < p && p + k <= |input| && k <= MAX_MATCH
    ensures k <= n <= MAX_MATCH && p + n <= |input|
    ensures forall i :: k <= i < n ==> SameAt(input, q, p, i)
    ensures n < MAX_MATCH ==> !SameAt(input, q, p, n)
    decreases MAX_MATCH - k
  {
    if k == MAX_MATCH || p + k == |input| || input[q + k] != input[p + k] then k else AgreeFrom(input, q, p, k + 1)
  }

  function Agree(input: seq<bv8>, q: nat, p: nat): (n: nat)
    requires q < p <= |input|
    ensures n <= MAX_MATCH && p + n <= |input|
  {
    AgreeFrom(input, q, p, 0)
  }

  /** The longest common prefix so far and where it starts. */
  datatype Find = Find(len: nat, at: int)

  /** The candidates in turn: a strictly longer prefix replaces what has been found, and one of nice
      length ends the search. */
  function Best(input: seq<bv8>, p: nat, c: seq<nat>, nice: int, f: Find): (r: Find)
    requires p <= |input| && forall i :: 0 <= i < |c| ==> c[i] < p
    ensures r.len >= f.len && r.len <= if f.len > MAX_MATCH then f.len else MAX_MATCH
    ensures r != f ==> r.len > f.len && 0 <= r.at < p && Agree(input, r.at, p) == r.len
  {
    if c == [] then f
    else
      var len := Agree(input, c[0], p);
      if len <= f.len then Best(input, p, c[1..], nice, f)
      else if len >= nice then Find(len, c[0])
      else Best(input, p, c[1..], nice, Find(len, c[0]))
  }

  /** r is the best length among the candidates c for the string at p; if it beats f, r.at is the first
      candidate to reach it. */
  ghost predicate BestSoFar(input: seq<bv8>, p: nat, c: seq<nat>, f: Find, r: Find) {
    && p <= |input|
    && (forall i :: 0 <= i < |c| ==> c[i] < p && Agree(input, c[i], p) <= r.len)
    && (r == f || (r.len > f.len && exists i: nat :: FirstBest(input, p, c, r, i)))
  }

  ghost predicate FirstBest(input: seq<bv8>, p: nat, c: seq<nat>, r: Find, i: nat) {
    && p <= |input| && i < |c| && (forall h :: 0 <= h <= i ==> c[h] < p)
    && c[i] == r.at && Agree(input, c[i], p) == r.len
    && (forall h :: 0 <= h < i ==> Agree(input, c[h], p) < r.len)
  }

  /** r is the best of the first k candidates, which are all unless r is of nice length. */
  ghost predicate BestUpTo(input: seq<bv8>, p: nat, c: seq<nat>, nice: int, f: Find, r: Find, k: nat) {
    k <= |c| && BestSoFar(input, p, c[..k], f, r) && (k == |c| || (r.len > f.len && r.len >= nice))
  }

  /** What Best finds is the best of all candidates, or of those up to the first of nice length. */
  lemma {:induction false} BestIs(input: seq<bv8>, p: nat, c: seq<nat>, nice: int, f: Find)
    requires p <= |input| && forall i :: 0 <= i < |c| ==> c[i] < p
    ensures exists k: nat :: BestUpTo(input, p, c, nice, f, Best(input, p, c, nice, f), k)
  {
    hide Agree, BestSoFar, FirstBest;
    var r := Best(input, p, c, nice, f);
    BestNone(input, p, c, f);
    if c == [] {
      assert BestUpTo(input, p, c, nice, f, r, 0);
      return;
    }
    var len := Agree(input, c[0], p);
    var g := if len <= f.len then f else Find(len, c[0]);
    BestNone(input, p, c[1..], g);
    BestLonger(input, p, c[0], [], f, g, g);
    assert c[..1] == [c[0]] + [];
    if len > f.len && len >= nice {
      assert BestUpTo(input, p, c, nice, f, r, 1);
      return;
    }
    BestIs(input, p, c[1..], nice, g);
    var k: nat :| BestUpTo(input, p, c[1..], nice, g, r, k);
    BestLonger(input, p, c[0], c[1..][..k], f, g, r);
    assert c[..k + 1] == [c[0]] + c[1..][..k];
    assert BestUpTo(input, p, c, nice, f, r, k + 1);
  }

  lemma BestNone(input: seq<bv8>, p: nat, c: seq<nat>, f: Find)
    requires p <= |input|
    ensures BestSoFar(input, p, c[..0], f, f) && BestSoFar(input, p, [], f, f)
  {
  }

  lemma BestLonger(input: seq<bv8>, p: nat, q: nat, c: seq<nat>, f: Find, g: Find, r: Find)
    requires q < p <= |input| && BestSoFar(input, p, c, g, r)
    requires g == if Agree(input, q, p) <= f.len then f else Find(Agree(input, q, p), q)
    ensures BestSoFar(input, p, [q] + c, f, r)
  {
    hide Agree;
    if r == g {
      assert r != f ==> FirstBest(input, p, [q] + c, r, 0);
    } else {
      var i: nat :| FirstBest(input, p, c, r, i);
      assert FirstBest(input, p, [q] + c, r, i + 1);
    }
  }

  /** The inserted strings with the key of the one at q: q and earlier ones, at most n, all behind floor. */
  function Chain(input: seq<bv8>, ins: set<int>, q: nat, floor: nat, n: nat): (c: seq<nat>)
    requires q + MIN_MATCH <= |input|
    ensures |c| >= 1 && c[0] == q && forall i :: 0 <= i < |c| ==> c[i] <= q
    decreases n
  {
    var next := Latest(input, ins, Key(input, q), q);
    [q] + if n <= 1 || next <= floor then [] else Chain(input, ins, next, floor, n - 1)
  }

  /** One candidate of a search. */
  lemma BestStep(input: seq<bv8>, ins: set<int>, p: nat, q: nat, floor: nat, n: nat, nice: int, f: Find)
    requires q < p && p + MIN_MATCH <= |input|
    ensures var len, next := Agree(input, q, p), Latest(input, ins, Key(input, q), q);
            var g := if len <= f.len then f else Find(len, q);
            Best(input, p, Chain(input, ins, q, floor, n), nice, f)
              == if n <= 1 || next <= floor || (len > f.len && len >= nice) then g
                 else Best(input, p, Chain(input, ins, next, floor, n - 1), nice, g)
  {
    hide Agree, Latest, Key;
    var next := Latest(input, ins, Key(input, q), q);
    assert Chain(input, ins, q, floor, n)[1..]
        == if n <= 1 || next <= floor then [] else Chain(input, ins, next, floor, n - 1);
  }

  /** Nothing beats what already reaches the end of the file. */
  lemma {:induction false} BestUnbeaten(input: seq<bv8>, p: nat, c: seq<nat>, nice: int, f: Find)
    requires p <= |input| && forall i :: 0 <= i < |c| ==> c[i] < p
    requires p + f.len >= |input|
    ensures Best(input, p, c, nice, f) == f
  {
    if c != [] {
      BestUnbeaten(input, p, c[1..], nice, f);
    }
  }

  /** In a window that shows the input from base on, with look bytes after s and either enough of them
      or all there are, the common prefix is the same once cut to look. */
  lemma AgreeIsCommon(ws: seq<bv8>, input: seq<bv8>, base: nat, cur: nat, s: nat, look: nat)
    requires cur < s && s + MAX_MATCH <= |ws| && s + look <= |ws| && base + s + look <= |input|
    requires forall i :: 0 <= i < s + look ==> ws[i] == input[base + i]
    requires look >= MAX_MATCH || base + s + look == |input|
    ensures Agree(input, base + cur, base + s) == Least(Common(ws, cur, s), look)
  {
    var n, m := Agree(input, base + cur, base + s), Common(ws, cur, s);
    assert n < m ==> SameAt(ws, cur, s, n);
    assert m < n ==> SameAt(input, base + cur, base + s, m);
  }

  /** How far back a chain is followed from a string at p; position 0 is never reached. */
  function Floor(w: nat, p: nat): nat {
    if p > MaxDistance(w) then p - MaxDistance(w) else 0
  }

  function Least(a: int, b: int): int { if a > b then b else a }

  /** What a search for the string at p finds that is longer than beat, when h heads its chain. */
  function Sought(input: seq<bv8>, ins: set<int>, p: nat, h: nat, w: nat, nice: int, chain: nat, beat: nat): (r: Find)
    requires h < p && p + MIN_MATCH <= |input|
    ensures r.len > beat ==> 0 <= r.at < p && r.len <= Agree(input, r.at, p)
    ensures r.len >= Least(beat, MIN_MATCH)
  {
    var left := |input| - p;
    var f := Best(input, p, Chain(input, ins, h, Floor(w, p), chain), Least(nice, left), Find(beat, -1));
    Find(Least(f.len, left), f.at)
  }

  /** What is found is a match. */
  lemma SoughtRepeats(input: seq<bv8>, ins: set<int>, p: nat, h: nat, w: nat, nice: int, chain: nat, beat: nat)
    requires h < p && p + MIN_MATCH <= |input|
    ensures var f := Sought(input, ins, p, h, w, nice, chain, beat);
            f.len > beat ==> f.at < p && Repeats(input, p, p - f.at, f.len)
  {
    hide Sought;
    var f := Sought(input, ins, p, h, w, nice, chain, beat);
    if f.len > beat {
      forall x | p <= x < p + f.len
        ensures input[x] == input[x - (p - f.at)]
      {
        assert SameAt(input, f.at, p, x - p);
      }
    }
  }

  /** Whether the string at h may begin the search for the one at p. At a distance of MAX_DIST exactly it
      depends on whether h has just become the first byte of the window, whose index means none; edge
      says that it has not, and the window moves by whole multiples of its size. */
  predicate InSight(w: nat, p: nat, h: int, edge: bool) {
    && w > 0 && h > 0
    && (p - h < MaxDistance(w) || (p - h == MaxDistance(w) && (edge || h % w != 0)))
  }

  /** The strings starting from a up to b are inserted, save those with too few bytes left. */
  function With(input: seq<bv8>, ins: set<int>, a: int, b: int): set<int>
    decreases b - a
  {
    if b <= a then ins
    else
      var before := With(input, ins, a, b - 1);
      if b - 1 + MIN_MATCH <= |input| then before + {b - 1} else before
  }

  lemma WithNone(input: seq<bv8>, ins: set<int>, a: int)
    ensures With(input, ins, a, a) == ins
  {
  }

  lemma WithNext(input: seq<bv8>, ins: set<int>, a: int, b: int)
    requires a <= b
    ensures var before := With(input, ins, a, b);
            With(input, ins, a, b + 1) == if b + MIN_MATCH <= |input| then before + {b} else before
  {
  }

  /** A greedy run: the position, the strings inserted and the tokens so far. */
  datatype Greedy = Greedy(p: nat, ins: set<int>, out: seq<Token>)

  function GreedyFind(input: seq<bv8>, w: nat, c: Config, ins: set<int>, p: nat, edge: bool): (r: Find)
    requires p <= |input|
    ensures r.len >= MIN_MATCH ==> 0 <= r.at < p
  {
    if p + MIN_MATCH > |input| then Find(MIN_MATCH - 1, -1)
    else
      var h := Latest(input, ins, Key(input, p), p);
      if InSight(w, p, h, edge) then Sought(input, ins, p, h, w, c.nice, c.chain, MIN_MATCH - 1)
      else Find(MIN_MATCH - 1, -1)
  }

  /** One turn: insert the string here, then a match if there is one and a literal if not. The strings
      inside a match are inserted only if it is short and not at the very end. */
  function GreedyStep(input: seq<bv8>, w: nat, c: Config, edge: bool, s: Greedy): Greedy {
    if s.p >= |input| then s
    else
      var ins := With(input, s.ins, s.p, s.p + 1);
      var f := GreedyFind(input, w, c, ins, s.p, edge);
      var next := s.p + f.len;
      if f.len < MIN_MATCH then Greedy(s.p + 1, ins, s.out + [Literal(input[s.p])])
      else Greedy(next, if f.len <= c.lazy && next + MIN_MATCH <= |input| then With(input, ins, s.p + 1, next) else ins,
                  s.out + [Match(s.p - f.at, f.len)])
  }

  lemma GreedyMatched(input: seq<bv8>, w: nat, c: Config, edge: bool, s: Greedy, ins: set<int>, len: nat, at: int)
    requires s.p < |input| && ins == With(input, s.ins, s.p, s.p + 1) && len >= MIN_MATCH
    requires GreedyFind(input, w, c, ins, s.p, edge) == Find(len, at)
    ensures var p := s.p + len;
            && at < s.p
            && GreedyStep(input, w, c, edge, s)
               == Greedy(p, if len <= c.lazy && p + MIN_MATCH <= |input| then With(input, ins, s.p + 1, p) else ins,
                         s.out + [Match(s.p - at, len)])
  {
    hide With, GreedyFind;
  }

  lemma GreedyUnmatched(input: seq<bv8>, w: nat, c: Config, edge: bool, s: Greedy, ins: set<int>)
    requires s.p < |input| && ins == With(input, s.ins, s.p, s.p + 1)
    requires GreedyFind(input, w, c, ins, s.p, edge).len < MIN_MATCH
    ensures GreedyStep(input, w, c, edge, s) == Greedy(s.p + 1, ins, s.out + [Literal(input[s.p])])
  {
    hide With, GreedyFind;
  }

  function GreedyRun(input: seq<bv8>, w: nat, c: Config, edges: seq<bool>): Greedy {
    if edges == [] then Greedy(0, {}, [])
    else
      var last := |edges| - 1;
      GreedyStep(input, w, c, edges[last], GreedyRun(input, w, c, edges[..last]))
  }

  /** A lazy run: besides, the pending match of the position before (len < MIN_MATCH for none) and
      whether the byte before is held back. */
  datatype Lazy = Lazy(p: nat, ins: set<int>, len: nat, distance: nat, held: bool, out: seq<Token>)

  /** No search if the pending match is long; a quarter of the chain if it is good; and no match of
      three bytes from too far away. */
  function LazyFind(input: seq<bv8>, w: nat, c: Config, ins: set<int>, p: nat, len: nat, edge: bool): (r: Find)
    requires p <= |input|
    ensures r.len >= MIN_MATCH && r.len > len ==> 0 <= r.at < p
    ensures len >= MIN_MATCH - 1 ==> r.len >= MIN_MATCH - 1
  {
    if p + MIN_MATCH > |input| || len >= c.lazy then Find(MIN_MATCH - 1, -1)
    else
      var h := Latest(input, ins, Key(input, p), p);
      if !InSight(w, p, h, edge) then Find(MIN_MATCH - 1, -1)
      else
        var f := Sought(input, ins, p, h, w, c.nice, if len >= c.good then c.chain / 4 else c.chain, len);
        if f.len == MIN_MATCH && p - f.at > 4096 then Find(MIN_MATCH - 1, -1) else f
  }

  lemma LazyFound(input: seq<bv8>, w: nat, c: Config, ins: set<int>, p: nat, len: nat, edge: bool)
    requires p + MIN_MATCH <= |input| && len < c.lazy
    requires InSight(w, p, Latest(input, ins, Key(input, p), p), edge)
    ensures var h := Latest(input, ins, Key(input, p), p);
            var f := Sought(input, ins, p, h, w, c.nice, if len >= c.good then c.chain / 4 else c.chain, len);
            LazyFind(input, w, c, ins, p, len, edge)
              == if f.len == MIN_MATCH && p - f.at > 4096 then Find(MIN_MATCH - 1, -1) else f
  {
    hide Sought, Latest, Key;
  }

  lemma LazyNone(input: seq<bv8>, w: nat, c: Config, ins: set<int>, p: nat, len: nat, edge: bool)
    requires p <= |input| < p + MIN_MATCH
    ensures LazyFind(input, w, c, ins, p, len, edge) == Find(MIN_MATCH - 1, -1)
  {
  }

  /** One turn: a pending match that is not beaten here is emitted; else the byte held back becomes a
      literal and the one here is held back. */
  function LazyStep(input: seq<bv8>, w: nat, c: Config, edge: bool, s: Lazy): Lazy {
    if s.p >= |input| then s
    else
      var ins := With(input, s.ins, s.p, s.p + 1);
      var f := LazyFind(input, w, c, ins, s.p, s.len, edge);
      if s.len >= MIN_MATCH && f.len <= s.len then
        var next := s.p + s.len - 1;
        Lazy(next, With(input, ins, s.p + 1, next), MIN_MATCH - 1, 0, false, s.out + [Match(s.distance, s.len)])
      else
        Lazy(s.p + 1, ins, f.len, if f.len >= MIN_MATCH then s.p - f.at else 0, true,
             s.out + if s.held && s.p > 0 then [Literal(input[s.p - 1])] else [])
  }

  lemma LazyUnbeaten(input: seq<bv8>, w: nat, c: Config, edge: bool, s: Lazy, ins: set<int>)
    requires s.p < |input| && ins == With(input, s.ins, s.p, s.p + 1) && s.len >= MIN_MATCH
    requires LazyFind(input, w, c, ins, s.p, s.len, edge).len <= s.len
    ensures var p := s.p + s.len - 1;
            LazyStep(input, w, c, edge, s)
              == Lazy(p, With(input, ins, s.p + 1, p), MIN_MATCH - 1, 0, false, s.out + [Match(s.distance, s.len)])
  {
    hide With, LazyFind;
  }

  /** The program's length may be one near the end of the file; it counts as two here. */
  lemma LazyBeaten(input: seq<bv8>, w: nat, c: Config, edge: bool, s: Lazy, ins: set<int>, len: nat, at: int)
    requires s.p < |input| && ins == With(input, s.ins, s.p, s.p + 1) && s.len >= MIN_MATCH - 1
    requires var f := LazyFind(input, w, c, ins, s.p, s.len, edge);
             if len > s.len then f == Find(len, at) else s.len == MIN_MATCH - 1 && f.len <= s.len
    ensures var found := len >= MIN_MATCH;
            && (found ==> at < s.p)
            && LazyStep(input, w, c, edge, s)
               == Lazy(s.p + 1, ins, if found then len else MIN_MATCH - 1, if found then s.p - at else 0, true,
                       s.out + if s.held && s.p > 0 then [Literal(input[s.p - 1])] else [])
  {
    hide With, LazyFind;
  }

  function LazyRun(input: seq<bv8>, w: nat, c: Config, edges: seq<bool>): Lazy {
    if edges == [] then Lazy(0, {}, MIN_MATCH - 1, 0, false, [])
    else
      var last := |edges| - 1;
      LazyStep(input, w, c, edges[last], LazyRun(input, w, c, edges[..last]))
  }

  /** All tokens of a lazy run that has reached the end: the byte held back is the last. */
  function LazyOut(input: seq<bv8>, s: Lazy): seq<Token> {
    s.out + if s.held && 0 < s.p <= |input| then [Literal(input[s.p - 1])] else []
  }

  /** The tokens of a whole file: levels 1 to 3 run greedy, the rest lazy, each with its own numbers. */
  ghost predicate Chosen(w: nat, input: seq<bv8>, level: nat, edges: seq<bool>, out: seq<Token>) {
    if level <= 3 then
      var s := GreedyRun(input, w, Numbers(level), edges);
      s.p == |input| && out == s.out
    else
      var s := LazyRun(input, w, Numbers(level), edges);
      s.p == |input| && out == LazyOut(input, s)
  }
}
