/** The two circular tables of the matcher, seen as values: head[h] starts the chain of strings with
    hash key h, prev[p % w] continues it. Window positions are offset by base, the number of input
    bytes that have slid out of the window, so input positions never change when the window moves. */
module HashChains {
  import opened Division
  import opened Lz77

  const HASH_SIZE := 0x8000
  const NIL := 0

  /** HASH_BITS is 15 and H_SHIFT is 5; a bv15 masks with HASH_MASK by itself. */
  function UpdateHash(h: bv15, c: bv8): bv15 {
    (h << 5) ^ (c as bv15)
  }

  function Hash2(a: bv8, b: bv8): bv15 {
    UpdateHash(UpdateHash(0, a), b)
  }

  function HashAt(input: seq<bv8>, p: nat): bv15
    requires p + MIN_MATCH <= |input|
  {
    UpdateHash(Hash2(input[p], input[p + 1]), input[p + 2])
  }

  /** Three bytes five bits apart, of which fifteen bits are kept. */
  lemma HashAtIs(input: seq<bv8>, p: nat)
    requires p + MIN_MATCH <= |input|
    ensures HashAt(input, p) == ((input[p] as bv15) << 10) ^ ((input[p + 1] as bv15) << 5) ^ (input[p + 2] as bv15)
  {
  }

  /** The key as an index into head. */
  function Key(input: seq<bv8>, p: nat): (k: nat)
    requires p + MIN_MATCH <= |input|
    ensures k < HASH_SIZE
  {
    HashAt(input, p) as nat
  }

  /** The third byte need not be compared: it is fixed by the key and the first two. */
  lemma ThirdByte(input: seq<bv8>, p: nat, q: nat)
    requires p + MIN_MATCH <= |input| && q + MIN_MATCH <= |input|
    requires Key(input, p) == Key(input, q)
    requires input[p] == input[q] && input[p + 1] == input[q + 1]
    ensures input[p + 2] == input[q + 2]
  {
    KeyInjective(HashAt(input, p), HashAt(input, q));
    UpdateInjective(Hash2(input[p], input[p + 1]), input[p + 2], input[q + 2]);
  }

  lemma UpdateInjective(h: bv15, c: bv8, d: bv8)
    requires UpdateHash(h, c) == UpdateHash(h, d)
    ensures c == d
  {
  }

  lemma KeyRestarted(a: bv8, b: bv8)
    ensures UpdateHash(a as bv15, b) == Hash2(a, b)
  {
  }

  lemma KeyInjective(h: bv15, k: bv15)
    requires h as int == k as int
    ensures h == k
  {
    assert (h as int) as bv15 == h;
    assert (k as int) as bv15 == k;
  }

  /** The running key is ready for the string at p: the bytes before p no longer matter. */
  ghost predicate Rolls(h: bv15, input: seq<bv8>, p: nat) {
    p + MIN_MATCH <= |input| ==> UpdateHash(h, 0) == UpdateHash(Hash2(input[p], input[p + 1]), 0)
  }

  lemma Restart(h: bv15, input: seq<bv8>, p: nat)
    requires p + MIN_MATCH <= |input| ==> h == Hash2(input[p], input[p + 1])
    ensures Rolls(h, input, p)
  {
  }

  lemma RollIn(h: bv15, input: seq<bv8>, p: nat)
    requires Rolls(h, input, p) && p + MIN_MATCH <= |input|
    ensures UpdateHash(h, input[p + 2]) == HashAt(input, p)
    ensures Rolls(HashAt(input, p), input, p + 1)
  {
  }

  /** The last position before p at which a string with key k was inserted, or -1. */
  function Latest(input: seq<bv8>, ins: set<int>, k: nat, p: int): (q: int)
    ensures -1 <= q && (q < p || q == -1)
    ensures q >= 0 ==> q in ins && q + MIN_MATCH <= |input| && Key(input, q) == k
    ensures forall h: nat :: q < h < p && h in ins && h + MIN_MATCH <= |input| ==> Key(input, h) != k
  {
    if p <= 0 then -1
    else if p - 1 in ins && p - 1 + MIN_MATCH <= |input| && Key(input, p - 1) == k then p - 1
    else Latest(input, ins, k, p - 1)
  }

  /** Strings inserted from p on do not change what was the latest before p. */
  lemma LatestSame(input: seq<bv8>, ins: set<int>, more: set<int>, k: nat, p: int, later: int)
    requires p <= later && ins <= more
    requires forall q :: q in more && q < later ==> q in ins && q < p
    ensures Latest(input, ins, k, p) == Latest(input, more, k, later)
  {
    hide Key;
    var q, r := Latest(input, ins, k, p), Latest(input, more, k, later);
    assert q < r ==> r in ins;
    assert r < q ==> q in more;
  }

  /** The window index of an input position; NIL for one that is not in the window or its first byte. */
  function Index(base: nat, q: int): nat { if q > base then q - base else NIL }

  /** Everything the tables and their ghost companion hold. own[j] is the input position of the last
      string inserted in slot j of prev, or -1; a slot never inserted may hold anything. */
  datatype Tables = Tables(w: nat, base: nat, prev: seq<nat>, head: seq<nat>, own: seq<int>) {
    ghost predicate Shaped() {
      && MAX_MATCH + MIN_MATCH + 2 <= w && base % w == 0
      && |prev| == w && |own| == w && |head| == HASH_SIZE
    }

    /** Some string was inserted at input position q, and its slot has not gone back since. */
    ghost predicate Linked(q: int)
      requires Shaped()
    {
      own[q % w] >= q
    }

    /** v, a window index in a table, is NIL or leads to a string with key k strictly before below. */
    ghost predicate LinkOK(input: seq<bv8>, v: nat, k: nat, below: int)
      requires Shaped()
    {
      v == NIL || (base + v < below && base + v + MIN_MATCH <= |input| && Linked(base + v) && Key(input, base + v) == k)
    }

    ghost predicate SlotOK(input: seq<bv8>, j: int, next: int)
      requires Shaped() && 0 <= j < w
    {
      && own[j] < next
      && (own[j] >= 0 ==>
            own[j] % w == j && own[j] + MIN_MATCH <= |input| && LinkOK(input, prev[j], Key(input, own[j]), own[j]))
    }

    /** Chains are valid; every string inserted so far starts before next. */
    ghost predicate Chained(input: seq<bv8>, next: int) {
      && Shaped()
      && (forall j :: 0 <= j < w ==> SlotOK(input, j, next))
      && (forall k :: 0 <= k < HASH_SIZE ==> LinkOK(input, head[k], k, next))
    }

    /** The tables lose nothing: ins being the positions inserted so far, each head leads to the latest
        string of its key and each link to the latest one before, as far as the window reaches. */
    ghost predicate Complete(input: seq<bv8>, ins: set<int>, next: int) {
      && Shaped() && (forall q :: q in ins ==> q < next)
      && (forall j :: 0 <= j < w ==> SlotComplete(input, ins, j))
      && (forall k :: 0 <= k < HASH_SIZE ==> head[k] == Index(base, Latest(input, ins, k, next)))
    }

    ghost predicate SlotComplete(input: seq<bv8>, ins: set<int>, j: int)
      requires Shaped() && 0 <= j < w
    {
      own[j] >= 0 ==>
        own[j] + MIN_MATCH <= |input| && prev[j] == Index(base, Latest(input, ins, Key(input, own[j]), own[j]))
    }

    function Insert(p: nat, k: nat): Tables
      requires Shaped() && base <= p && k < HASH_SIZE
    {
      Tables(w, base, prev[p % w := head[k]], head[k := p - base], own[p % w := p])
    }

    /** The window moves by w: links into the part that is dropped become NIL. */
    function Slide(): Tables
      requires Shaped()
    {
      Tables(w, base + w, Lowered(w, prev), Lowered(w, head), own)
    }
  }

  function Lowered(w: nat, t: seq<nat>): (r: seq<nat>)
    ensures |r| == |t|
  {
    seq(|t|, i requires 0 <= i < |t| => if t[i] >= w then t[i] - w else NIL)
  }

  lemma InsertKeepsLinks(t: Tables, input: seq<bv8>, next: int, p: nat, k: nat)
    requires t.Chained(input, next) && next <= p && t.base <= p && k < HASH_SIZE
    ensures forall q :: t.Linked(q) ==> t.Insert(p, k).Linked(q)
    ensures t.Insert(p, k).Linked(p)
  {
    forall q | t.Linked(q)
      ensures t.Insert(p, k).Linked(q)
    {
      assert t.SlotOK(input, q % t.w, next);
    }
  }

  lemma InsertChained(t: Tables, input: seq<bv8>, next: int, p: nat)
    requires t.Chained(input, next) && next <= p && t.base <= p && p + MIN_MATCH <= |input|
    ensures t.Insert(p, Key(input, p)).Chained(input, p + 1)
    ensures forall q :: t.Linked(q) ==> t.Insert(p, Key(input, p)).Linked(q)
    ensures t.Insert(p, Key(input, p)).LinkOK(input, t.head[Key(input, p)], Key(input, p), p)
  {
    var u, after := t.Insert(p, Key(input, p)), p + 1;
    InsertKeepsLinks(t, input, next, p, Key(input, p));
    forall k | 0 <= k < HASH_SIZE
      ensures u.LinkOK(input, u.head[k], k, after)
    {
      assert t.LinkOK(input, t.head[k], k, next);
    }
    assert t.LinkOK(input, t.head[Key(input, p)], Key(input, p), next);
    forall j | 0 <= j < t.w
      ensures u.SlotOK(input, j, after)
    {
      assert t.SlotOK(input, j, next);
    }
  }

  lemma SlideKeepsLinks(t: Tables, input: seq<bv8>, v: nat, k: nat, below: int)
    requires t.Shaped() && t.Slide().Shaped() && t.LinkOK(input, v, k, below)
    ensures t.Slide().LinkOK(input, if v >= t.w then v - t.w else NIL, k, below)
  {
  }

  lemma SlideChained(t: Tables, input: seq<bv8>, next: int)
    requires t.Chained(input, next)
    ensures t.Slide().Chained(input, next)
    ensures forall q :: t.Slide().Shaped() && t.Slide().Linked(q) == t.Linked(q)
  {
    var u := t.Slide();
    AddModulus(t.base, t.w);
    forall j | 0 <= j < t.w
      ensures u.SlotOK(input, j, next)
    {
      assert t.SlotOK(input, j, next);
      if t.own[j] >= 0 {
        SlideKeepsLinks(t, input, t.prev[j], Key(input, t.own[j]), t.own[j]);
      }
    }
    forall k | 0 <= k < HASH_SIZE
      ensures u.LinkOK(input, u.head[k], k, next)
    {
      SlideKeepsLinks(t, input, t.head[k], k, next);
    }
  }

  lemma AddModulus(a: int, w: nat)
    requires w > 0
    ensures (a + w) % w == a % w
  {
    Quotient(a + w, w, a / w + 1, a % w);
  }

  /** A window index and the input position it stands for share a slot. */
  lemma SameSlot(base: nat, v: nat, w: nat)
    requires w > 0 && base % w == 0
    ensures (base + v) % w == v % w
  {
    assert base + v == w * (base / w + v / w) + v % w;
    Quotient(base + v, w, base / w + v / w, v % w);
  }

  lemma SlotOwner(p: int, q: int, w: nat)
    requires w > 0 && p % w == q % w && q <= p < q + w
    ensures p == q
  {
    assert p - q == w * (p / w - q / w);
    Small(p / w - q / w, w);
  }

  /** Within a window's reach of the newest string, a linked position still owns its slot, so its own
      link is the one that follows: strictly earlier, linked again, and with the same key. */
  lemma FollowLink(t: Tables, input: seq<bv8>, next: int, q: nat)
    requires t.Chained(input, next) && t.Linked(q) && next <= q + t.w
    ensures q < next && q + MIN_MATCH <= |input|
    ensures t.LinkOK(input, t.prev[q % t.w], Key(input, q), q)
  {
    var j := q % t.w;
    assert t.SlotOK(input, j, next);
    SlotOwner(t.own[j], q, t.w);
  }

  lemma ChainedLater(t: Tables, input: seq<bv8>, next: int, later: int)
    requires t.Chained(input, next) && next <= later
    ensures t.Chained(input, later)
  {
    forall j | 0 <= j < t.w
      ensures t.SlotOK(input, j, later)
    {
      assert t.SlotOK(input, j, next);
    }
    forall k | 0 <= k < HASH_SIZE
      ensures t.LinkOK(input, t.head[k], k, later)
    {
      assert t.LinkOK(input, t.head[k], k, next);
    }
  }

  /** Even a link from a slot whose string is out of reach stays behind next and lands in a used slot. */
  lemma StaleLink(t: Tables, input: seq<bv8>, next: int, j: nat)
    requires t.Chained(input, next) && j < t.w && t.own[j] >= 0
    ensures t.prev[j] == NIL || (t.base + t.prev[j] < next - 1 && t.own[t.prev[j] % t.w] >= 0)
  {
    assert t.SlotOK(input, j, next);
    SameSlot(t.base, t.prev[j], t.w);
  }

  /** Any window index found in head leads to a slot in use. */
  lemma HeadReachable(t: Tables, input: seq<bv8>, next: int, k: nat)
    requires t.Chained(input, next) && k < HASH_SIZE
    ensures t.head[k] == NIL || (t.base + t.head[k] < next && t.own[t.head[k] % t.w] >= 0)
  {
    assert t.LinkOK(input, t.head[k], k, next);
    SameSlot(t.base, t.head[k], t.w);
  }

  /** Within reach of the newest string, the link of a string leads to the one inserted before it. */
  lemma FollowComplete(t: Tables, input: seq<bv8>, ins: set<int>, next: int, q: nat)
    requires t.Chained(input, next) && t.Complete(input, ins, next) && t.Linked(q) && next <= q + t.w
    ensures q + MIN_MATCH <= |input|
    ensures t.prev[q % t.w] == Index(t.base, Latest(input, ins, Key(input, q), q))
  {
    hide Latest, Key;
    var j := q % t.w;
    assert t.SlotOK(input, j, next) && t.SlotComplete(input, ins, j);
    SlotOwner(t.own[j], q, t.w);
  }

  lemma InsertComplete(t: Tables, input: seq<bv8>, ins: set<int>, next: int, p: nat)
    requires t.Chained(input, next) && t.Complete(input, ins, next)
    requires next <= p && t.base <= p && p + MIN_MATCH <= |input|
    ensures t.Insert(p, Key(input, p)).Complete(input, ins + {p}, p + 1)
    ensures t.head[Key(input, p)] == Index(t.base, Latest(input, ins + {p}, Key(input, p), p))
  {
    hide Key;
    var u, more, after := t.Insert(p, Key(input, p)), ins + {p}, p + 1;
    forall k | 0 <= k < HASH_SIZE
      ensures u.head[k] == Index(u.base, Latest(input, more, k, after))
    {
      LatestSame(input, ins, more, k, next, p);
    }
    LatestSame(input, ins, more, Key(input, p), next, p);
    forall j | 0 <= j < t.w
      ensures u.SlotComplete(input, more, j)
    {
      assert t.SlotOK(input, j, next) && t.SlotComplete(input, ins, j);
      if u.own[j] >= 0 && j != p % t.w {
        LatestSame(input, ins, more, Key(input, t.own[j]), t.own[j], t.own[j]);
      }
    }
  }

  lemma SlideComplete(t: Tables, input: seq<bv8>, ins: set<int>, next: int)
    requires t.Complete(input, ins, next)
    ensures t.Slide().Complete(input, ins, next)
  {
    hide Latest, Key;
    var u := t.Slide();
    AddModulus(t.base, t.w);
    forall j | 0 <= j < t.w
      ensures u.SlotComplete(input, ins, j)
    {
      assert t.SlotComplete(input, ins, j);
    }
  }

  lemma CompleteLater(t: Tables, input: seq<bv8>, ins: set<int>, next: int, later: int)
    requires t.Complete(input, ins, next) && next <= later
    ensures t.Complete(input, ins, later)
  {
    hide Latest, Key;
    forall k | 0 <= k < HASH_SIZE
      ensures t.head[k] == Index(t.base, Latest(input, ins, k, later))
    {
      LatestSame(input, ins, ins, k, next, later);
    }
  }

  function NoneInserted(w: nat): seq<int> {
    seq(w, _ => -1)
  }

  function NilHeads(): seq<nat> {
    seq(HASH_SIZE, _ => NIL)
  }

  lemma EmptyChains(t: Tables, input: seq<bv8>)
    requires t.Shaped() && t.own == NoneInserted(t.w) && t.head == NilHeads()
    ensures t.Chained(input, 0) && t.Complete(input, {}, 0)
  {
  }
}
