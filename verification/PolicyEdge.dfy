/** A file whose tokens depend on how the window moves: one string is repeated exactly MAX_DIST after it,
    and it is the first of the window if that has just moved. */
module PolicyEdge {
  import opened Lz77
  import opened HashChains
  import opened Matching
  import opened Policy

  const W := 512
  const A: bv8 := 0x61

  /** The letter a over and over, but for bcd at 512 and again 250 bytes later. */
  ghost predicate Repeated(input: seq<bv8>) {
    && |input| >= 1024
    && forall i :: 0 <= i < |input| ==>
         input[i] == if i == 512 || i == 762 then 0x62 else if i == 513 || i == 763 then 0x63
                     else if i == 514 || i == 764 then 0x64 else A
  }

  lemma KeysApart()
    ensures var h, i, j, k := Three(A, A, A), Three(0x62, 0x63, 0x64), Three(0x63, 0x64, A), Three(0x64, A, A);
            h != i && h != j && h != k && i != j && i != k && j != k
  {
  }

  function Three(a: bv8, b: bv8, c: bv8): nat { UpdateHash(Hash2(a, b), c) as nat }

  lemma KeyIsThree(input: seq<bv8>, p: nat)
    requires p + MIN_MATCH <= |input|
    ensures Key(input, p) == Three(input[p], input[p + 1], input[p + 2])
  {
  }

  lemma LatestIs(input: seq<bv8>, ins: set<int>, p: nat, q: int)
    requires p + MIN_MATCH <= |input| && -1 <= q < p
    requires q >= 0 ==> q in ins && Key(input, q) == Key(input, p)
    requires forall h: nat :: q < h < p && h in ins ==> h + MIN_MATCH <= |input| && Key(input, h) != Key(input, p)
    ensures Latest(input, ins, Key(input, p), p) == q
  {
    hide Key;
  }

  /** A turn at which nothing is in sight. */
  lemma LiteralStep(input: seq<bv8>, c: Config, edge: bool, s: Greedy, q: int)
    requires s.p + MIN_MATCH <= |input| && Latest(input, s.ins + {s.p}, Key(input, s.p), s.p) == q
    requires !InSight(W, s.p, q, edge)
    ensures GreedyStep(input, W, c, edge, s) == Greedy(s.p + 1, s.ins + {s.p}, s.out + [Literal(input[s.p])])
  {
    hide Latest, Key;
    assert With(input, s.ins, s.p, s.p) == s.ins;
  }

  /** A turn at which the head of the chain is in sight and good enough to stop at. */
  lemma MatchStep(input: seq<bv8>, c: Config, edge: bool, s: Greedy, q: nat, len: nat)
    requires s.p + MIN_MATCH <= |input| && Latest(input, s.ins + {s.p}, Key(input, s.p), s.p) == q
    requires InSight(W, s.p, q, edge) && q < s.p && Agree(input, q, s.p) == len && len >= c.nice && len > c.lazy
    requires len >= MIN_MATCH
    ensures GreedyStep(input, W, c, edge, s)
         == Greedy(s.p + len, s.ins + {s.p}, s.out + [Match(s.p - q, len)])
  {
    hide Latest, Key, Agree;
    assert With(input, s.ins, s.p, s.p) == s.ins;
    var ch: seq<nat> := Chain(input, s.ins + {s.p}, q, Floor(W, s.p), c.chain);
    assert ch[0] == q;
    AgreeBound(input, q, s.p);
  }

  lemma AgreeBound(input: seq<bv8>, q: nat, p: nat)
    requires q < p <= |input|
    ensures Agree(input, q, p) <= |input| - p
  {
  }

  lemma AgreeIs(input: seq<bv8>, q: nat, p: nat, n: nat)
    requires q < p && n <= MAX_MATCH && p + n <= |input|
    requires forall i :: 0 <= i < n ==> SameAt(input, q, p, i)
    requires n < MAX_MATCH ==> !SameAt(input, q, p, n)
    ensures Agree(input, q, p) == n
  {
  }

  // ---------- the keys of the file

  /** The string at p is one of three a. */
  predicate Plain(p: int) {
    0 <= p && (p + 2 < 512 || (514 < p && p + 2 < 762))
  }

  lemma PlainKey(input: seq<bv8>, p: nat)
    requires Repeated(input) && Plain(p)
    ensures p + MIN_MATCH <= |input| && Key(input, p) == Three(A, A, A)
  {
    hide Three, Key;
    KeyIsThree(input, p);
  }

  lemma OtherKeys(input: seq<bv8>)
    requires Repeated(input)
    ensures Key(input, 512) == Three(0x62, 0x63, 0x64) == Key(input, 762)
    ensures Key(input, 513) == Three(0x63, 0x64, A) && Key(input, 514) == Three(0x64, A, A)
  {
    hide Three, Key;
    KeyIsThree(input, 512);
    KeyIsThree(input, 513);
    KeyIsThree(input, 514);
    KeyIsThree(input, 762);
  }

  lemma AllKeys(input: seq<bv8>)
    requires Repeated(input)
    ensures forall p: nat :: Plain(p) ==> p + MIN_MATCH <= |input| && Key(input, p) == Three(A, A, A)
    ensures Key(input, 512) == Key(input, 762) != Key(input, 513) && Key(input, 512) != Key(input, 514)
    ensures Key(input, 513) != Key(input, 514) && Key(input, 512) != Three(A, A, A)
    ensures Key(input, 513) != Three(A, A, A) && Key(input, 514) != Three(A, A, A)
  {
    hide Three, Key, Plain;
    KeysApart();
    OtherKeys(input);
    forall p: nat | Plain(p)
      ensures p + MIN_MATCH <= |input| && Key(input, p) == Three(A, A, A)
    {
      PlainKey(input, p);
    }
  }

  // ---------- the greedy run over it

  function Tally(): (t: seq<Token>)
    ensures |t| == 10
  {
    [Literal(A), Literal(A), Match(1, 258), Literal(A), Match(1, 251), Literal(0x62), Literal(0x63), Literal(0x64),
     Literal(A), Match(1, 246)]
  }

  /** The run before each of its first eleven turns. */
  function Before(k: nat): Greedy
    requires k <= 10
  {
    match k
    case 0 => Greedy(0, {}, Tally()[..0])
    case 1 => Greedy(1, {0}, Tally()[..1])
    case 2 => Greedy(2, {0, 1}, Tally()[..2])
    case 3 => Greedy(260, {0, 1, 2}, Tally()[..3])
    case 4 => Greedy(261, {0, 1, 2, 260}, Tally()[..4])
    case 5 => Greedy(512, {0, 1, 2, 260, 261}, Tally()[..5])
    case 6 => Greedy(513, {0, 1, 2, 260, 261, 512}, Tally()[..6])
    case 7 => Greedy(514, {0, 1, 2, 260, 261, 512, 513}, Tally()[..7])
    case 8 => Greedy(515, {0, 1, 2, 260, 261, 512, 513, 514}, Tally()[..8])
    case 9 => Greedy(516, {0, 1, 2, 260, 261, 512, 513, 514, 515}, Tally()[..9])
    case _ => Greedy(762, {0, 1, 2, 260, 261, 512, 513, 514, 515, 516}, Tally()[..10])
  }

  /** The common prefix of two strings of a, which ends where p comes to the next b. */
  lemma AgreeUpTo(input: seq<bv8>, p: nat, n: nat)
    requires Repeated(input) && 0 < p && n <= MAX_MATCH
    requires (p + n <= 512 && (n < MAX_MATCH ==> p + n == 512)) || (515 < p && p + n == 762)
    ensures Agree(input, p - 1, p) == n
  {
    var q := p - 1;
    forall i | 0 <= i < n
      ensures SameAt(input, q, p, i)
    {
    }
    AgreeIs(input, q, p, n);
  }

  lemma Turn0(input: seq<bv8>, c: Config, edge: bool)
    requires Repeated(input) && c.nice <= 32 && c.lazy <= 6
    ensures GreedyStep(input, W, c, edge, Before(0)) == Before(1)
  {
    hide Latest, Key, GreedyStep, Agree, Three;
    AllKeys(input);
    LatestIs(input, Before(0).ins + {0}, 0, -1);
    LiteralStep(input, c, edge, Before(0), -1);
  }

  lemma Turn1(input: seq<bv8>, c: Config, edge: bool)
    requires Repeated(input) && c.nice <= 32 && c.lazy <= 6
    ensures GreedyStep(input, W, c, edge, Before(1)) == Before(2)
  {
    hide Latest, Key, GreedyStep, Agree, Three;
    AllKeys(input);
    LatestIs(input, Before(1).ins + {1}, 1, 0);
    LiteralStep(input, c, edge, Before(1), 0);
  }

  lemma Turn2(input: seq<bv8>, c: Config, edge: bool)
    requires Repeated(input) && c.nice <= 32 && c.lazy <= 6
    ensures GreedyStep(input, W, c, edge, Before(2)) == Before(3)
  {
    hide Latest, Key, GreedyStep, Agree, Three;
    AllKeys(input);
    LatestIs(input, Before(2).ins + {2}, 2, 1);
    AgreeUpTo(input, 2, 258);
    MatchStep(input, c, edge, Before(2), 1, 258);
  }

  lemma Turn3(input: seq<bv8>, c: Config, edge: bool)
    requires Repeated(input) && c.nice <= 32 && c.lazy <= 6
    ensures GreedyStep(input, W, c, edge, Before(3)) == Before(4)
  {
    hide Latest, Key, GreedyStep, Agree, Three;
    AllKeys(input);
    LatestIs(input, Before(3).ins + {260}, 260, 2);
    LiteralStep(input, c, edge, Before(3), 2);
  }

  lemma Turn4(input: seq<bv8>, c: Config, edge: bool)
    requires Repeated(input) && c.nice <= 32 && c.lazy <= 6
    ensures GreedyStep(input, W, c, edge, Before(4)) == Before(5)
  {
    hide Latest, Key, GreedyStep, Agree, Three;
    AllKeys(input);
    LatestIs(input, Before(4).ins + {261}, 261, 260);
    AgreeUpTo(input, 261, 251);
    MatchStep(input, c, edge, Before(4), 260, 251);
  }

  lemma Turn5(input: seq<bv8>, c: Config, edge: bool)
    requires Repeated(input) && c.nice <= 32 && c.lazy <= 6
    ensures GreedyStep(input, W, c, edge, Before(5)) == Before(6)
  {
    hide Latest, Key, GreedyStep, Agree, Three;
    AllKeys(input);
    LatestIs(input, Before(5).ins + {512}, 512, -1);
    LiteralStep(input, c, edge, Before(5), -1);
  }

  lemma Turn6(input: seq<bv8>, c: Config, edge: bool)
    requires Repeated(input) && c.nice <= 32 && c.lazy <= 6
    ensures GreedyStep(input, W, c, edge, Before(6)) == Before(7)
  {
    hide Latest, Key, GreedyStep, Agree, Three;
    AllKeys(input);
    LatestIs(input, Before(6).ins + {513}, 513, -1);
    LiteralStep(input, c, edge, Before(6), -1);
  }

  lemma Turn7(input: seq<bv8>, c: Config, edge: bool)
    requires Repeated(input) && c.nice <= 32 && c.lazy <= 6
    ensures GreedyStep(input, W, c, edge, Before(7)) == Before(8)
  {
    hide Latest, Key, GreedyStep, Agree, Three;
    AllKeys(input);
    LatestIs(input, Before(7).ins + {514}, 514, -1);
    LiteralStep(input, c, edge, Before(7), -1);
  }

  lemma Turn8(input: seq<bv8>, c: Config, edge: bool)
    requires Repeated(input) && c.nice <= 32 && c.lazy <= 6
    ensures GreedyStep(input, W, c, edge, Before(8)) == Before(9)
  {
    hide Latest, Key, GreedyStep, Agree, Three;
    AllKeys(input);
    LatestIs(input, Before(8).ins + {515}, 515, 261);
    LiteralStep(input, c, edge, Before(8), 261);
  }

  lemma Turn9(input: seq<bv8>, c: Config, edge: bool)
    requires Repeated(input) && c.nice <= 32 && c.lazy <= 6
    ensures GreedyStep(input, W, c, edge, Before(9)) == Before(10)
  {
    hide Latest, Key, GreedyStep, Agree, Three;
    AllKeys(input);
    LatestIs(input, Before(9).ins + {516}, 516, 515);
    AgreeUpTo(input, 516, 246);
    MatchStep(input, c, edge, Before(9), 515, 246);
  }

  lemma {:induction false} TenTurns(input: seq<bv8>, c: Config, edges: seq<bool>)
    requires Repeated(input) && c.nice <= 32 && c.lazy <= 6 && |edges| <= 10
    ensures GreedyRun(input, W, c, edges) == Before(|edges|)
  {
    hide GreedyStep, Before;
    if edges == [] {
      assert GreedyRun(input, W, c, edges) == Before(0) by {
        AtStart();
      }
      return;
    }
    var k := |edges| - 1;
    TenTurns(input, c, edges[..k]);
    OneTurn(input, c, edges[k], k);
  }

  lemma AtStart()
    ensures Before(0) == Greedy(0, {}, [])
  {
  }

  lemma OneTurn(input: seq<bv8>, c: Config, edge: bool, k: nat)
    requires Repeated(input) && c.nice <= 32 && c.lazy <= 6 && k < 10
    ensures GreedyStep(input, W, c, edge, Before(k)) == Before(k + 1)
  {
    hide GreedyStep, Before;
    match k
    case 0 => Turn0(input, c, edge);
    case 1 => Turn1(input, c, edge);
    case 2 => Turn2(input, c, edge);
    case 3 => Turn3(input, c, edge);
    case 4 => Turn4(input, c, edge);
    case 5 => Turn5(input, c, edge);
    case 6 => Turn6(input, c, edge);
    case 7 => Turn7(input, c, edge);
    case 8 => Turn8(input, c, edge);
    case _ => Turn9(input, c, edge);
  }

  /** At levels 1 to 3, with a window of 512 bytes, the eleventh token of such a file is a match where bcd is
      still seen and a literal where it is not; whether it is depends on how much had been read when the
      window had to move. */
  lemma EdgeDecides(input: seq<bv8>, level: nat, edges: seq<bool>)
    requires Repeated(input) && 1 <= level <= 3 && |edges| == 11
    ensures GreedyRun(input, W, Numbers(level), edges).out
         == Tally() + [if edges[10] then Match(250, 250) else Literal(0x62)]
  {
    hide GreedyStep, Latest, Key, Agree, Three;
    var c := Numbers(level);
    TenTurns(input, c, edges[..10]);
    AllKeys(input);
    LatestIs(input, Before(10).ins + {762}, 762, 512);
    if edges[10] {
      forall i | 0 <= i < 250
        ensures SameAt(input, 512, 762, i)
      {
      }
      AgreeIs(input, 512, 762, 250);
      MatchStep(input, c, true, Before(10), 512, 250);
    } else {
      LiteralStep(input, c, false, Before(10), 512);
    }
    assert Tally()[..10] == Tally();
  }
}
