/** The LZ77 matcher of obj_zip/zip30/deflate.c: sliding window, hash chains, match finder and the
    greedy and lazy loops. Huffman coding (trees.c) is not part of this model: ct_tally appends a token. */
module Deflate {
  import opened Options
  import opened Lz77
  import opened HashChains
  import opened Matching
  import opened Policy
  import opened PolicyFacts

  const MIN_LOOKAHEAD := MAX_MATCH + MIN_MATCH + 1
  const TOO_FAR := 4096

  /** C's unsigned arithmetic on 32 bits. */
  function U32(x: int): (r: nat)
    ensures r < 0x1_0000_0000
  {
    x % 0x1_0000_0000
  }

  lemma NoWrap(x: int)
    requires 0 <= x < 0x1_0000_0000
    ensures U32(x) == x
  {
  }

  lemma WrapShift(s: int, m: int, w: int)
    ensures U32(s - w - 1 - U32(m - w)) == U32(s - 1 - m)
  {
  }

  predicate PowerOfTwo(n: nat) {
    n == 1 || (n > 1 && n % 2 == 0 && PowerOfTwo(n / 2))
  }

  const CONFIGURATION_TABLE: seq<Config> := [
    Config(0, 0, 0, 0),
    Config(4, 4, 8, 4), Config(4, 5, 16, 8), Config(4, 6, 32, 32),
    Config(4, 4, 16, 16), Config(8, 16, 32, 32), Config(8, 16, 128, 128),
    Config(8, 32, 128, 256), Config(32, 128, 258, 1024), Config(32, 258, 258, 4096)]

  class Matcher {
    const w: nat                    // WSIZE
    const window: array<bv8>        // 2 * WSIZE bytes
    const prev: array<nat>
    const head: array<nat>
    var strstart: nat
    var lookahead: nat
    var blockStart: int
    var matchStart: nat             // unsigned in C, may have wrapped below zero
    var prevLength: nat
    var insH: bv15
    var eofile: bool
    var level: nat
    var maxChainLength: nat
    var maxLazyMatch: nat
    var goodMatch: nat
    var niceMatch: int
    // the file being read and how much of it read_buf has delivered
    var input: seq<bv8>
    var delivered: nat
    // tokens given to ct_tally since the last flush, and what flush_block has been given
    var tokens: seq<Token>
    var blocks: seq<Block>
    // input bytes that have slid out of the window; last string inserted in each slot of prev
    ghost var base: nat
    ghost var own: seq<int>
    // positions at which a string has been inserted
    ghost var ins: set<int>

    function MaxDist(): int { w - MIN_LOOKAHEAD }

    ghost predicate Shaped()
      reads this`own
    {
      && |own| == w && 512 <= w <= 0x8000 && PowerOfTwo(w)
      && window.Length == 2 * w && prev.Length == w && head.Length == HASH_SIZE
      && prev != head && prev != (window as object) && head != (window as object)
    }

    /** Input position of strstart. */
    ghost function At(): nat
      reads this`base, this`strstart
    {
      base + strstart
    }

    /** The window starts with the input bytes from base up to those delivered last. */
    ghost predicate DataOK()
      reads this`own, this`base, this`delivered, this`input, this`eofile, window
    {
      && Shaped() && base % w == 0
      && base <= delivered <= |input| && delivered - base <= 2 * w
      && (forall i :: 0 <= i < delivered - base ==> window[i] == input[base + i])
      && (eofile ==> delivered == |input|)
    }

    /** Once the window has slid, all positions in reach are in it. */
    ghost predicate Near()
      reads this`base, this`strstart
    {
      base > 0 ==> strstart >= MaxDist()
    }

    ghost predicate WindowOK()
      reads this`own, this`base, this`delivered, this`input, this`eofile, this`strstart, this`lookahead, window
    {
      DataOK() && Near() && delivered == At() + lookahead
    }

    ghost function T(): Tables
      reads this`base, this`own, prev, head
    {
      Tables(w, base, prev[..], head[..], own)
    }

    /** Chains are valid and lose nothing, and all strings inserted start before position next. */
    ghost predicate TablesOK(next: int)
      reads this`base, this`own, this`ins, this`input, prev, head
    {
      T().Chained(input, next) && T().Complete(input, ins, next)
    }

    /** Besides, the running key fits the string at next. */
    ghost predicate ChainsOK(next: int)
      reads this`base, this`own, this`ins, this`input, this`insH, prev, head
    {
      next >= 0 && TablesOK(next) && Rolls(insH, input, next)
    }

    /** Enough lookahead for any match, or the end of the file; and room for the longest scan. */
    ghost predicate Filled()
      reads this`lookahead, this`eofile, this`strstart
    {
      (lookahead < MIN_LOOKAHEAD ==> eofile) && strstart <= 2 * w - MIN_LOOKAHEAD
    }

    /** Blocks flushed so far tile the input; the tokens tallied since expand up to emitted. */
    ghost predicate Emitted(upto: int)
      reads this`base, this`blockStart, this`input, this`blocks, this`tokens
    {
      && 0 <= base + blockStart <= upto <= |input|
      && Tiled(blocks, input, base + blockStart)
      && (forall i :: 0 <= i < |blocks| ==> !blocks[i].eof)
      && Expand(input[..base + blockStart], tokens) == Some(input[..upto])
    }

    /** Every token so far, flushed or not. */
    ghost function Out(): seq<Token>
      reads this`blocks, this`tokens
    {
      AllTokens(blocks) + tokens
    }

    /** The level's own numbers are set. */
    ghost predicate Configured()
      reads this`level, this`maxChainLength, this`maxLazyMatch, this`goodMatch
    {
      && 1 <= level <= 9 && maxChainLength == Numbers(level).chain
      && maxLazyMatch == Numbers(level).lazy && goodMatch == Numbers(level).good
    }

    /** The nice length is the level's own until the end of the file is nearer than that. */
    ghost predicate NiceOK()
      reads this`level, this`niceMatch, this`eofile, this`lookahead
    {
      niceMatch == Numbers(level).nice || (eofile && lookahead <= niceMatch <= Numbers(level).nice)
    }

    constructor (wsize: nat)
      requires 512 <= wsize <= 0x8000 && PowerOfTwo(wsize)
      ensures Shaped() && w == wsize && fresh(window) && fresh(prev) && fresh(head)
    {
      w := wsize;
      window := new bv8[2 * wsize];
      prev := new nat[wsize];
      head := new nat[HASH_SIZE];
      input, tokens, blocks := [], [], [];
      own := NoneInserted(wsize);
    }

    /** Any non-empty piece that fits, or nothing at the end of the file. */
    method ReadBuf(at: nat, room: nat) returns (n: nat)
      requires Shaped() && at + room <= 2 * w && room > 0 && delivered <= |input|
      modifies this`delivered, window
      ensures n <= room && delivered == old(delivered) + n <= |input|
      ensures n == 0 ==> delivered == |input|
      ensures forall i :: 0 <= i < 2 * w && !(at <= i < at + n) ==> window[i] == old(window[i])
      ensures forall i :: at <= i < at + n ==> window[i] == input[old(delivered) + i - at]
    {
      var left := |input| - delivered;
      if left == 0 {
        return 0;
      }
      n :| 1 <= n <= room && n <= left;
      forall i | at <= i < at + n {
        window[i] := input[delivered + i - at];
      }
      delivered := delivered + n;
    }

    /** INSERT_STRING: link the string at s in front of its chain; the result is the previous head. */
    method InsertString(s: nat) returns (matchHead: nat)
      requires DataOK() && ChainsOK(base + s) && base + s + MIN_MATCH <= delivered
      modifies this`insH, this`own, this`ins, prev, head
      ensures DataOK() && ChainsOK(base + s + 1) && ins == old(ins) + {base + s}
      ensures T().Linked(base + s)
      ensures forall q :: old(T()).Linked(q) ==> T().Linked(q)
      ensures T().LinkOK(input, matchHead, Key(input, base + s), base + s)
      ensures matchHead == Index(base, Latest(input, ins, Key(input, base + s), base + s)) && HeadOK(matchHead)
    {
      hide Tables.Chained, Tables.Complete, Tables.LinkOK, Rolls, UpdateHash, HashAt, Index, Latest;
      ghost var t, p := T(), base + s;
      RollIn(insH, input, p);
      SameSlot(base, s, w);
      InsertChained(t, input, p, p);
      InsertComplete(t, input, ins, p, p);
      HeadReachable(t, input, p, Key(input, p));
      insH := UpdateHash(insH, window[s + (MIN_MATCH - 1)]);
      var k := insH as nat;
      assert k == Key(input, p);
      matchHead := head[k];
      prev[s % w] := matchHead;
      head[k] := s;
      own, ins := own[s % w := p], ins + {p};
      assert prev[..] == t.prev[s % w := matchHead];
      assert head[..] == t.head[k := s];
      assert T() == t.Insert(p, Key(input, p));
    }

    /** Move the upper half of the window down; every chain keeps its strings, block and match starts
        keep their input positions. */
    method SlideWindow()
      requires WindowOK() && TablesOK(At()) && strstart >= w + MaxDist()
      modifies this`strstart, this`blockStart, this`matchStart, this`base, window, prev, head
      ensures WindowOK() && strstart == old(strstart) - w
      ensures TablesOK(At())
      ensures At() == old(At()) && base + blockStart == old(base + blockStart)
      ensures Distance() == old(Distance())
    {
      hide Tables.Chained, Tables.Complete, Lowered, U32, PowerOfTwo;
      ghost var t, next := T(), At();
      SlideChained(t, input, next);
      SlideComplete(t, input, ins, next);
      WrapShift(strstart, matchStart, w);
      MoveDown();
      matchStart := U32(matchStart - w);
      strstart := strstart - w;
      blockStart := blockStart - w;
      LowerTables();
      AddModulus(base, w);
      base := base + w;
      assert T() == t.Slide();
    }

    method MoveDown()
      requires Shaped()
      modifies window
      ensures forall i :: 0 <= i < w ==> window[i] == old(window[w + i])
    {
      forall i | 0 <= i < w {
        window[i] := window[w + i];
      }
    }

    method LowerTables()
      requires Shaped()
      modifies prev, head
      ensures prev[..] == Lowered(w, old(prev[..])) && head[..] == Lowered(w, old(head[..]))
    {
      hide Lowered;
      LowerAll(head);
      LowerAll(prev);
    }

    method LowerAll(table: array<nat>)
      requires table != (window as object)
      modifies table
      ensures table[..] == Lowered(w, old(table[..]))
    {
      for n := 0 to table.Length
        invariant forall i :: 0 <= i < n ==> table[i] == if old(table[i]) >= w then old(table[i]) - w else NIL
        invariant forall i :: n <= i < table.Length ==> table[i] == old(table[i])
      {
        var m := table[n];
        table[n] := if m >= w then m - w else NIL;
      }
    }

    /** The distance of a pending match found at the previous position, as ct_tally will be told it. */
    ghost function Distance(): nat
      reads this`strstart, this`matchStart
    {
      U32(strstart - 1 - matchStart)
    }

    /** One turn of fill_window's loop: reads are made for at least two bytes. */
    method ReadMore(more: nat)
      requires WindowOK() && more == 2 * w - lookahead - strstart && more >= 2 && !eofile
      modifies this`lookahead, this`eofile, this`delivered, window
      ensures WindowOK() && (eofile || delivered > old(delivered)) && delivered >= old(delivered)
    {
      var n := ReadBuf(strstart + lookahead, more);
      if n == 0 {
        eofile := true;
      } else {
        lookahead := lookahead + n;
      }
    }

    method FillWindow()
      requires WindowOK() && TablesOK(At()) && lookahead < MIN_LOOKAHEAD
      modifies this`strstart, this`lookahead, this`blockStart, this`matchStart, this`eofile, this`delivered
      modifies this`base, window, prev, head
      ensures WindowOK() && TablesOK(At()) && Filled()
      ensures At() == old(At()) && base + blockStart == old(base + blockStart)
      ensures Distance() == old(Distance()) && (old(strstart) >= 1 ==> strstart >= 1)
      ensures delivered > old(delivered) || eofile
      ensures old(eofile) ==> eofile && lookahead == old(lookahead)
    {
      hide Tables.Chained, Tables.Complete, Rolls, U32;
      ghost var first := true;
      while true
        invariant WindowOK() && TablesOK(At()) && (!first ==> delivered > old(delivered))
        invariant lookahead < MIN_LOOKAHEAD && (!first ==> !eofile) && delivered >= old(delivered)
        invariant At() == old(At()) && base + blockStart == old(base + blockStart)
        invariant Distance() == old(Distance()) && (old(strstart) >= 1 ==> strstart >= 1)
        invariant first ==> eofile == old(eofile) && lookahead == old(lookahead)
        invariant !first ==> !old(eofile)
        decreases |input| - delivered, first
      {
        var more := 2 * w - lookahead - strstart;
        if strstart >= w + MaxDist() {
          SlideWindow();
          more := more + w;
        }
        if eofile {
          return;
        }
        ReadMore(more);
        first := false;
        if !(lookahead < MIN_LOOKAHEAD && !eofile) {
          return;
        }
      }
    }

    /** hashHead is the previous string with the same key as the string at strstart, itself inserted. */
    ghost predicate Live(hashHead: nat)
      reads this`base, this`own, this`strstart, this`delivered, this`input, prev, head
    {
      && T().Shaped() && base + strstart + MIN_MATCH <= delivered <= |input|
      && hashHead != NIL && T().LinkOK(input, hashHead, Key(input, At()), At())
    }

    /** The slot of a window index found in head has been used, however old the index is. */
    ghost predicate Reachable(hashHead: nat)
      reads this`own
    {
      |own| == w && w > 0 && hashHead < 2 * w && own[hashHead % w] >= 0
    }

    /** The unrolled comparison: the end of the window is tested only every eighth byte. */
    method ScanFrom(cur: nat) returns (len: nat)
      requires Shaped() && cur <= strstart <= 2 * w - MIN_LOOKAHEAD
      ensures MIN_MATCH <= len <= MAX_MATCH
      ensures forall i :: MIN_MATCH <= i < len ==> SameAt(window[..], cur, strstart, i)
      ensures len < MAX_MATCH ==> !SameAt(window[..], cur, strstart, len)
    {
      len := 3;
      while window[strstart + len] == window[cur + len] && ((len - 2) % 8 != 0 || len < MAX_MATCH)
        invariant MIN_MATCH <= len <= MAX_MATCH
        invariant forall i :: MIN_MATCH <= i < len ==> SameAt(window[..], cur, strstart, i)
        decreases MAX_MATCH - len
      {
        len := len + 1;
      }
    }

    /** Where keys agree, comparing all bytes but the third compares them all. */
    lemma SkippedByte(cur: nat, len: nat)
      requires WindowOK() && Filled() && Live(cur) && MIN_MATCH <= len <= MAX_MATCH
      requires window[cur] == window[strstart] && window[cur + 1] == window[strstart + 1]
      requires forall i :: MIN_MATCH <= i < len ==> SameAt(window[..], cur, strstart, i)
      requires len < MAX_MATCH ==> !SameAt(window[..], cur, strstart, len)
      ensures Common(window[..], cur, strstart) == len
    {
      ThirdByte(input, base + cur, At());
      assert SameAt(window[..], cur, strstart, 2);
      forall i | 0 <= i < len
        ensures SameAt(window[..], cur, strstart, i)
      {
        assert i == 0 || i == 1 || i == 2 || MIN_MATCH <= i;
      }
      CommonIs(window[..], cur, strstart, len);
    }

    ghost function Limit(): nat
      reads this`strstart
    {
      if strstart > MaxDist() then strstart - MaxDist() else NIL
    }

    ghost function ChainLength(): nat
      reads this`prevLength, this`goodMatch, this`maxChainLength
    {
      ChainFor(prevLength)
    }

    /** A search that has a good match to beat looks at a quarter of the chain. */
    ghost function ChainFor(length: nat): nat
      reads this`goodMatch, this`maxChainLength
    {
      if length >= goodMatch then maxChainLength / 4 else maxChainLength
    }

    /** One candidate: 0 if a byte that decides says it cannot beat bestLen, else its length. The two
        end bytes, which the program keeps in registers, are read from the window here. */
    method Compare(cur: nat, bestLen: nat) returns (len: nat)
      requires WindowOK() && Filled() && cur <= strstart && 1 <= bestLen <= MAX_MATCH
      ensures len <= MAX_MATCH
      ensures Live(cur) ==> if len > bestLen then Common(window[..], cur, strstart) == len
                            else Common(window[..], cur, strstart) <= bestLen
    {
      var scanEnd1, scanEnd := window[strstart + bestLen - 1], window[strstart + bestLen];
      if window[cur + bestLen] != scanEnd || window[cur + bestLen - 1] != scanEnd1
         || window[cur] != window[strstart] || window[cur + 1] != window[strstart + 1] {
        ghost var at := if window[cur + bestLen] != scanEnd then bestLen
                        else if window[cur + bestLen - 1] != scanEnd1 then bestLen - 1
                        else if window[cur] != window[strstart] then 0 else 1;
        CommonStops(window[..], cur, strstart, at);
        return 0;
      }
      len := ScanFrom(cur);
      if Live(cur) {
        SkippedByte(cur, len);
      }
    }

    /** Following prev from a reachable candidate stays behind strstart; from a live one it stays live and
        leads to the string inserted before it. */
    lemma NextCandidate(cur: nat)
      requires WindowOK() && TablesOK(At() + 1)
      requires Reachable(cur) && cur <= strstart && strstart - cur <= MaxDist()
      ensures prev[cur % w] != NIL ==> Reachable(prev[cur % w]) && prev[cur % w] < strstart
      ensures Live(cur) ==> cur < strstart && (prev[cur % w] != NIL ==> Live(prev[cur % w]))
      ensures Live(cur) ==> prev[cur % w] == Index(base, Before(base + cur))
    {
      hide Latest, Key, PowerOfTwo, Index;
      StaleLink(T(), input, At() + 1, cur % w);
      if Live(cur) {
        SameSlot(base, cur, w);
        FollowLink(T(), input, At() + 1, base + cur);
        FollowComplete(T(), input, ins, At() + 1, base + cur);
      }
    }

    /** The string inserted last before position q with the key of the one at q, or -1. */
    ghost function Before(q: nat): int
      reads this`input, this`ins
    {
      if q + MIN_MATCH <= |input| then Latest(input, ins, Key(input, q), q) else -1
    }

    /** Among window indexes the limit means what the floor means among input positions. */
    lemma AboveLimit(q: int)
      requires DataOK() && Near() && q < At()
      ensures Index(base, q) <= Limit() <==> q <= Floor(w, At())
      ensures Index(base, q) != NIL ==> base + Index(base, q) == q
    {
    }

    /** len bytes from start is what the search for the string at strstart is to find from h on, as far as
        the file goes; only what beats prevLength counts. */
    ghost predicate Finds(h: nat, nice: int, chain: nat, len: nat, start: nat)
      reads this`base, this`strstart, this`input, this`ins, this`prevLength
    {
      && h < strstart && At() + MIN_MATCH <= |input|
      && var f := Sought(input, ins, At(), base + h, w, nice, chain, prevLength);
         f.len == Least(len, |input| - At()) && (f.len > prevLength ==> f.at == base + start)
    }

    method LongestMatch(hashHead: nat) returns (bestLen: nat)
      requires WindowOK() && Filled() && TablesOK(At() + 1) && niceMatch <= lookahead && maxChainLength >= 4
      requires Reachable(hashHead) && NIL < hashHead <= strstart && strstart - hashHead <= MaxDist()
      requires 1 <= prevLength <= MAX_MATCH
      modifies this`matchStart
      ensures prevLength <= bestLen <= MAX_MATCH
      ensures bestLen == prevLength ==> matchStart == old(matchStart)
      ensures bestLen > prevLength ==> NIL < matchStart <= strstart && strstart - matchStart <= MaxDist()
      ensures Live(hashHead) ==> Finds(hashHead, niceMatch, ChainLength(), bestLen, matchStart)
    {
      var start;
      hide TablesOK, Live, Reachable, PowerOfTwo, Searched, Finds;
      bestLen, start := Search(hashHead);
      if Live(hashHead) {
        SearchEnds(hashHead, bestLen, start);
      }
      matchStart := start;
    }

    /** What a search along the chain from cur finds if now is the best so far. */
    ghost function Finding(cur: nat, n: nat, now: Find): Find
      requires cur < strstart && At() + MIN_MATCH <= |input|
      reads this`base, this`strstart, this`input, this`ins, this`niceMatch
    {
      Best(input, At(), Chain(input, ins, base + cur, Floor(w, At()), n), niceMatch, now)
    }

    ghost function Sofar(len: nat, start: nat): Find
      reads this`base, this`prevLength
    {
      Find(len, if len > prevLength then base + start else -1)
    }

    /** The search from h is at cur, n candidates allowed, with len bytes from start as the best so far. */
    ghost predicate Looking(h: nat, cur: nat, n: nat, len: nat, start: nat)
      reads this`base, this`own, this`strstart, this`delivered, this`input, this`ins, this`prevLength, this`lookahead
      reads this`niceMatch, this`goodMatch, this`maxChainLength, prev, head
    {
      && Live(cur) && cur < strstart && h < strstart && At() + MIN_MATCH <= |input| && prevLength <= len < lookahead
      && Finding(cur, n, Sofar(len, start)) == Finding(h, ChainLength(), Find(prevLength, -1))
    }

    /** The outcome of the loop when the pending match does not reach the end of the file already. */
    ghost predicate Searched(h: nat, len: nat, start: nat)
      reads this`base, this`strstart, this`input, this`ins, this`prevLength, this`lookahead, this`niceMatch
      reads this`goodMatch, this`maxChainLength
    {
      && h < strstart && At() + MIN_MATCH <= |input|
      && var found := Finding(h, ChainLength(), Find(prevLength, -1));
         found.len == Least(len, lookahead) && (len > prevLength ==> found.at == base + start)
    }

    lemma SearchBegins(h: nat)
      requires WindowOK() && Filled() && TablesOK(At() + 1) && Live(h) && prevLength < lookahead
      requires Reachable(h) && h <= strstart && strstart - h <= MaxDist()
      ensures Looking(h, h, ChainLength(), prevLength, matchStart)
    {
      NextCandidate(h);
      LiveRoom(h);
    }

    /** One turn of the search: len is the length of cur's match if that is better than what there is. */
    lemma SearchTurn(h: nat, cur: nat, n: nat, best: nat, start: nat, len: nat)
      requires WindowOK() && Filled() && TablesOK(At() + 1) && Looking(h, cur, n, best, start) && n >= 1
      requires Reachable(cur) && strstart - cur <= MaxDist() && niceMatch <= lookahead
      requires if len > best then Common(window[..], cur, strstart) == len
               else Common(window[..], cur, strstart) <= best
      ensures var better, next := len > best, prev[cur % w];
              var r, s := if better then len else best, if better then cur else start;
              if n == 1 || next <= Limit() || (better && len >= niceMatch) then Searched(h, r, s)
              else Looking(h, next, n - 1, r, s)
    {
      hide Agree, Latest, Key, PowerOfTwo, Common, TablesOK, Live, Reachable, Best, Chain, Index, ChainLength;
      NextCandidate(cur);
      LiveRoom(cur);
      AboveLimit(Before(base + cur));
      AgreeIsCommon(window[..], input, base, cur, strstart, lookahead);
      BestStep(input, ins, At(), base + cur, Floor(w, At()), n, niceMatch, Sofar(best, start));
    }

    lemma LiveRoom(cur: nat)
      requires Live(cur) && WindowOK()
      ensures base + cur + MIN_MATCH <= |input| && At() + MIN_MATCH <= |input| && lookahead >= MIN_MATCH
    {
    }

    /** Compare one candidate, and what that means for the search. */
    method Weigh(ghost h: nat, cur: nat, ghost n: nat, best: nat, ghost start: nat, ghost live: bool) returns (len: nat)
      requires Shaped() && WindowOK() && Filled() && TablesOK(At() + 1) && niceMatch <= lookahead && n >= 1
      requires Reachable(cur) && cur <= strstart && strstart - cur <= MaxDist() && 1 <= best <= MAX_MATCH
      requires live ==> Looking(h, cur, n, best, start)
      ensures len <= MAX_MATCH
      ensures prev[cur % w] != NIL ==> Reachable(prev[cur % w]) && prev[cur % w] < strstart
      ensures var better, next := len > best, prev[cur % w];
              var r, s := if better then len else best, if better then cur else start;
              live ==> if n == 1 || next <= Limit() || (better && len >= niceMatch) then Searched(h, r, s)
                       else Looking(h, next, n - 1, r, s)
    {
      hide WindowOK, Filled, Reachable, TablesOK, Common, Searched, PowerOfTwo, Live, Finding;
      NextCandidate(cur);
      len := Compare(cur, best);
      if live {
        SearchTurn(h, cur, n, best, start, len);
      }
    }

    /** The loop of longest_match; start is what match_start becomes. */
    method Search(hashHead: nat) returns (bestLen: nat, start: nat)
      requires Shaped() && WindowOK() && Filled() && TablesOK(At() + 1) && niceMatch <= lookahead && maxChainLength >= 4
      requires Reachable(hashHead) && NIL < hashHead <= strstart && strstart - hashHead <= MaxDist()
      requires 1 <= prevLength <= MAX_MATCH
      ensures prevLength <= bestLen <= MAX_MATCH
      ensures bestLen == prevLength ==> start == matchStart
      ensures bestLen > prevLength ==> NIL < start <= strstart && strstart - start <= MaxDist()
      ensures Live(hashHead) && prevLength < lookahead ==> Searched(hashHead, bestLen, start)
    {
      hide WindowOK, Filled, Live, Reachable, PowerOfTwo, TablesOK, Common, Looking, Searched;
      var chainLength: nat := maxChainLength;
      var cur: nat := hashHead;
      var limit: nat := if strstart > MaxDist() then strstart - MaxDist() else NIL;
      bestLen, start := prevLength, matchStart;
      if prevLength >= goodMatch {
        chainLength := chainLength / 4;
      }
      ghost var live := Live(hashHead) && prevLength < lookahead;
      if live {
        SearchBegins(hashHead);
      }
      while true
        invariant Reachable(cur) && NIL < cur <= strstart && strstart - cur <= MaxDist() && chainLength >= 1
        invariant prevLength <= bestLen <= MAX_MATCH
        invariant bestLen == prevLength ==> start == matchStart
        invariant bestLen > prevLength ==> NIL < start <= strstart && strstart - start <= MaxDist()
        invariant live ==> Looking(hashHead, cur, chainLength, bestLen, start)
        decreases chainLength
      {
        var len := Weigh(hashHead, cur, chainLength, bestLen, start, live);
        if len > bestLen {
          start := cur;
          bestLen := len;
          if len >= niceMatch {
            break;
          }
        }
        cur := prev[cur % w];
        if cur <= limit {
          break;
        }
        chainLength := chainLength - 1;
        if chainLength == 0 {
          break;
        }
      }
    }

    lemma SearchEnds(hashHead: nat, bestLen: nat, start: nat)
      requires WindowOK() && Filled() && TablesOK(At() + 1) && Live(hashHead) && niceMatch <= lookahead
      requires Reachable(hashHead) && NIL < hashHead <= strstart && strstart - hashHead <= MaxDist()
      requires prevLength <= bestLen <= MAX_MATCH
      requires prevLength < lookahead ==> Searched(hashHead, bestLen, start)
      ensures Finds(hashHead, niceMatch, ChainLength(), bestLen, start)
    {
      hide Latest, Key, PowerOfTwo, Tables.Chained, Tables.Complete, Live, Reachable, Best, Chain;
      NextCandidate(hashHead);
      LiveRoom(hashHead);
      if prevLength >= lookahead {
        var c: seq<nat> := Chain(input, ins, base + hashHead, Floor(w, At()), ChainLength());
        BestUnbeaten(input, At(), c, niceMatch, Find(prevLength, -1));
      }
    }

    /** End of every turn: make sure there is enough lookahead; what has been emitted stays so. */
    method Refill(ghost upto: int)
      requires WindowOK() && TablesOK(At()) && Emitted(upto)
      modifies this`strstart, this`lookahead, this`blockStart, this`matchStart, this`eofile, this`delivered
      modifies this`base, window, prev, head
      ensures WindowOK() && TablesOK(At()) && Filled() && Emitted(upto)
      ensures old(ChainsOK(At())) ==> ChainsOK(At())
      ensures old(eofile) ==> eofile && lookahead == old(lookahead)
      ensures At() == old(At()) && Distance() == old(Distance()) && (old(strstart) >= 1 ==> strstart >= 1)
    {
      hide Tables.Chained, Tables.Complete, Rolls, Tiled, Expand, U32;
      if lookahead < MIN_LOOKAHEAD {
        FillWindow();
      }
    }

    /** What both loops do with a hash head that is in reach: search, and stop at the end of the input.
        Anything longer than prevLength is a true match of the string at strstart. */
    method TryMatch(hashHead: nat) returns (len: nat)
      requires WindowOK() && Filled() && TablesOK(At() + 1) && Configured() && NiceOK()
      requires Reachable(hashHead) && NIL < hashHead <= strstart && strstart - hashHead <= MaxDist()
      requires lookahead >= MIN_MATCH ==> Live(hashHead)
      requires 1 <= prevLength <= MAX_MATCH
      modifies this`matchStart, this`niceMatch
      ensures NiceOK()
      ensures len <= lookahead && len <= MAX_MATCH && len >= if prevLength < lookahead then prevLength else lookahead
      ensures len > prevLength && len >= MIN_MATCH ==> Found(len) && matchStart < strstart
      ensures lookahead >= MIN_MATCH ==> Finds(hashHead, Numbers(level).nice, ChainLength(), len, matchStart)
    {
      hide TablesOK, Chain, Best, Sought, U32, PowerOfTwo, Repeats, Live, Reachable;
      if niceMatch > lookahead {
        niceMatch := lookahead;
      }
      len := LongestMatch(hashHead);
      if lookahead >= MIN_MATCH {
        SameNice(hashHead, len);
        if len > prevLength {
          TrueMatch(hashHead, len);
        }
      }
      if len > lookahead {
        len := lookahead;
      }
    }

    /** Cutting the nice length to the lookahead makes no difference to the search. */
    lemma SameNice(hashHead: nat, len: nat)
      requires WindowOK() && Filled() && NiceOK() && niceMatch <= lookahead && len <= MAX_MATCH
      requires niceMatch == Numbers(level).nice || niceMatch == lookahead
      requires Finds(hashHead, niceMatch, ChainLength(), len, matchStart)
      ensures Finds(hashHead, Numbers(level).nice, ChainLength(), len, matchStart)
      ensures Finds(hashHead, Numbers(level).nice, ChainLength(), Least(len, lookahead), matchStart)
    {
      hide Best, Chain, PowerOfTwo;
    }

    /** The lookahead cuts a length as the end of the file does. */
    lemma CutSame(len: nat)
      requires WindowOK() && Filled() && len <= MAX_MATCH
      ensures Least(len, lookahead) == Least(len, |input| - At()) && strstart < 0x1_0000
    {
    }

    /** What beats prevLength is a true match. */
    lemma TrueMatch(hashHead: nat, len: nat)
      requires WindowOK() && Filled() && len > prevLength && len <= MAX_MATCH && strstart - matchStart <= MaxDist()
      requires Finds(hashHead, Numbers(level).nice, ChainLength(), len, matchStart)
      ensures Least(len, lookahead) > prevLength ==> Found(Least(len, lookahead)) && matchStart < strstart
    {
      hide Sought, WindowOK, Filled, Repeats, U32, ChainLength, Numbers;
      CutSame(len);
      if Least(len, lookahead) > prevLength {
        NoWrap(strstart - matchStart);
        SoughtRepeats(input, ins, At(), base + hashHead, w, Numbers(level).nice, ChainLength(), prevLength);
      }
    }

    /** matchStart is the start of a match of the string at strstart. */
    ghost predicate Found(len: nat)
      reads this`base, this`strstart, this`matchStart, this`input
    {
      var d := U32(strstart - matchStart);
      d <= MaxDist() && len <= MAX_MATCH && Repeats(input, At(), d, len)
    }

    /** A match found one position ago and not yet adopted. */
    ghost predicate Pending(len: nat)
      reads this`base, this`strstart, this`matchStart, this`input
    {
      len >= MIN_MATCH ==>
        strstart >= 1 && Distance() <= MaxDist() && len <= MAX_MATCH && Repeats(input, At() - 1, Distance(), len)
    }

    /** A position too close to the end of the file is not inserted, and no later one will be. */
    lemma SkipTail(p: int)
      requires ChainsOK(p) && p + MIN_MATCH > |input|
      ensures ChainsOK(p + 1)
    {
      ChainedLater(T(), input, p, p + 1);
      CompleteLater(T(), input, ins, p, p + 1);
    }

    ghost predicate HeadOK(hashHead: nat)
      reads this`own
    {
      hashHead == NIL || Reachable(hashHead)
    }

    /** hashHead is the index of the last string inserted with the key of the one at strstart. */
    ghost predicate HeadIs(hashHead: nat)
      reads this`base, this`own, this`ins, this`strstart, this`delivered, this`input, prev, head
    {
      hashHead == Index(base, Before(At())) && (hashHead != NIL ==> Live(hashHead))
    }

    /** Start of every turn: insert the string at strstart unless too few bytes are left. */
    method InsertCurrent(oldHead: nat) returns (hashHead: nat)
      requires WindowOK() && ChainsOK(At()) && Filled() && HeadOK(oldHead)
      modifies this`insH, this`own, this`ins, prev, head
      ensures WindowOK() && ChainsOK(At() + 1) && HeadOK(hashHead)
      ensures lookahead >= MIN_MATCH ==> HeadIs(hashHead)
      ensures ins == With(input, old(ins), At(), At() + 1)
    {
      hide TablesOK, Tables.LinkOK, Rolls, Key, Latest, Index, HeadOK, PowerOfTwo;
      hashHead := oldHead;
      if lookahead >= MIN_MATCH {
        hashHead := InsertString(strstart);
      } else {
        SkipTail(At());
      }
    }

    /** The first byte of the window is not exactly MAX_DIST before strstart. */
    ghost predicate Edge()
      reads this`base, this`strstart
    {
      base != At() - MaxDist()
    }

    /** The program's test of a hash head, in window indexes, is whether the string is in sight. */
    lemma SightIs(hashHead: nat)
      requires DataOK() && Near() && HeadIs(hashHead) && strstart <= 2 * w
      ensures hashHead != NIL && U32(strstart - hashHead) <= MaxDist() <==> InSight(w, At(), Before(At()), Edge())
      ensures hashHead != NIL ==> base + hashHead == Before(At()) && hashHead < strstart
    {
      if 0 < hashHead {
        NoWrap(strstart - hashHead);
      }
    }

    method CtTally(t: Token) returns (flush: bool)
      modifies this`tokens
      ensures tokens == old(tokens) + [t] && Out() == old(Out()) + [t]
    {
      tokens := tokens + [t];
      flush := *;
    }

    method EmitMatch(distance: nat, len: nat, ghost p: nat) returns (flush: bool)
      requires Emitted(p) && Repeats(input, p, distance, len)
      requires MIN_MATCH <= len <= MAX_MATCH && distance <= 0x8000
      modifies this`tokens
      ensures Emitted(p + len) && Out() == old(Out()) + [Match(distance, len)]
    {
      TallyMatch(input[..base + blockStart], tokens, input, p, distance, len);
      flush := CtTally(Match(distance, len));
    }

    method EmitLiteral(b: bv8, ghost p: nat) returns (flush: bool)
      requires Emitted(p) && p < |input| && input[p] == b
      modifies this`tokens
      ensures Emitted(p + 1) && Out() == old(Out()) + [Literal(b)]
    {
      TallyLiteral(input[..base + blockStart], tokens, input, p);
      flush := CtTally(Literal(b));
    }

    /** FLUSH_BLOCK: the bytes handed over are exactly the slice the tokens stand for. */
    method FlushBlock(eof: bool)
      requires DataOK() && At() <= delivered && Emitted(At())
      modifies this`blocks, this`tokens
      ensures Tiled(blocks, input, At()) && tokens == [] && Out() == old(Out())
      ensures |blocks| == |old(blocks)| + 1 && blocks[..|old(blocks)|] == old(blocks)
      ensures blocks[|old(blocks)|].eof == eof
    {
      var buf := if blockStart >= 0 then Some(window[blockStart..strstart]) else None;
      assert blockStart >= 0 ==> window[blockStart..strstart] == input[base + blockStart..At()];
      var b := Block(buf, strstart - blockStart, eof, tokens);
      TiledAppend(blocks, b, input, At());
      assert (blocks + [b])[..|blocks|] == blocks;
      blocks, tokens := blocks + [b], [];
    }

    method FlushIf(flush: bool)
      requires DataOK() && At() <= delivered && Emitted(At())
      modifies this`blocks, this`tokens, this`blockStart
      ensures Emitted(At()) && Out() == old(Out())
    {
      if flush {
        FlushBlock(false);
        blockStart := strstart;
      }
    }

    /** The strings inside an adopted match, for the fast loop: inserted only if the match is short. */
    method AdvanceFast(len: nat, oldHead: nat) returns (hashHead: nat)
      requires DataOK() && Near() && ChainsOK(At() + 1) && HeadOK(oldHead) && MIN_MATCH <= len <= MAX_MATCH
      requires delivered == At() + len + lookahead && strstart <= 2 * w - MIN_LOOKAHEAD
      requires lookahead < MIN_MATCH ==> eofile
      modifies this`strstart, this`insH, this`own, this`ins, prev, head
      ensures WindowOK() && ChainsOK(At()) && At() == old(At()) + len && HeadOK(hashHead)
      ensures ins == if len <= maxLazyMatch && lookahead >= MIN_MATCH then With(input, old(ins), old(At()) + 1, At())
                     else old(ins)
    {
      hide Tables.Chained, Tables.Complete, Tables.LinkOK, Rolls, Key, PowerOfTwo;
      hashHead := oldHead;
      if len <= maxLazyMatch && lookahead >= MIN_MATCH {
        hashHead := InsertMatched(len - 1, hashHead);
        strstart := strstart + 1;
      } else {
        JumpOver(len);
      }
    }

    /** The loop of the greedy insertion: so many strings after the one at strstart. */
    method InsertMatched(count: nat, oldHead: nat) returns (hashHead: nat)
      requires DataOK() && Near() && ChainsOK(At() + 1) && HeadOK(oldHead)
      requires 1 <= count && At() + count + MIN_MATCH <= delivered
      modifies this`strstart, this`insH, this`own, this`ins, prev, head
      ensures DataOK() && Near() && ChainsOK(At() + 1) && HeadOK(hashHead)
      ensures strstart == old(strstart) + count && ins == With(input, old(ins), old(At()) + 1, At() + 1)
    {
      hide ChainsOK, HeadOK, With, Shaped, Index, Latest, Key;
      hashHead := oldHead;
      var matchLength := count;
      WithNone(input, ins, At() + 1);
      while true
        invariant DataOK() && Near() && ChainsOK(At() + 1) && HeadOK(hashHead)
        invariant ins == With(input, old(ins), old(At()) + 1, At() + 1)
        invariant 1 <= matchLength && strstart + matchLength == old(strstart) + count
        decreases matchLength
      {
        strstart := strstart + 1;
        WithNext(input, old(ins), old(At()) + 1, At());
        hashHead := InsertString(strstart);
        matchLength := matchLength - 1;
        if matchLength == 0 {
          break;
        }
      }
    }

    /** Skip a long match: nothing is inserted and the running key is started afresh. */
    method JumpOver(len: nat)
      requires DataOK() && Near() && TablesOK(At() + 1) && MIN_MATCH <= len <= MAX_MATCH
      requires delivered == At() + len + lookahead && strstart <= 2 * w - MIN_LOOKAHEAD
      requires lookahead < MIN_MATCH ==> eofile
      modifies this`strstart, this`insH
      ensures WindowOK() && ChainsOK(At()) && At() == old(At()) + len
    {
      hide Tables.Chained, Tables.Complete, Tables.LinkOK, Rolls, PowerOfTwo;
      ghost var t, next := T(), At() + 1;
      strstart := strstart + len;
      insH := window[strstart] as bv15;
      insH := UpdateHash(insH, window[strstart + 1]);
      ChainedLater(t, input, next, At());
      CompleteLater(t, input, ins, next, At());
      KeyRestarted(window[strstart], window[strstart + 1]);
      assert At() + MIN_MATCH <= |input| ==> lookahead >= 2;
      Restart(insH, input, At());
    }

    method InsertUpTo(maxInsert: int, oldHead: nat) returns (hashHead: nat)
      requires DataOK() && ChainsOK(At()) && HeadOK(oldHead)
      requires if strstart <= maxInsert then At() + MIN_MATCH <= delivered else At() + MIN_MATCH > |input|
      modifies this`insH, this`own, this`ins, prev, head
      ensures DataOK() && ChainsOK(At() + 1) && HeadOK(hashHead)
      ensures ins == if At() + MIN_MATCH <= |input| then old(ins) + {At()} else old(ins)
    {
      hashHead := oldHead;
      if strstart <= maxInsert {
        hashHead := InsertString(strstart);
      } else {
        SkipTail(At());
      }
    }

    /** The strings inside an adopted match, for the lazy loop: the two before are inserted already. */
    method AdvanceLazy(oldHead: nat) returns (hashHead: nat)
      requires WindowOK() && ChainsOK(At() + 1) && Filled() && HeadOK(oldHead)
      requires MIN_MATCH <= prevLength <= MAX_MATCH && prevLength - 1 <= lookahead && strstart >= 1
      modifies this`strstart, this`lookahead, this`prevLength, this`insH, this`own, this`ins, prev, head
      ensures WindowOK() && ChainsOK(At()) && HeadOK(hashHead)
      ensures At() == old(At()) + old(prevLength) - 1 && lookahead <= old(lookahead)
      ensures ins == With(input, old(ins), old(At()) + 1, At())
    {
      hide DataOK, ChainsOK, HeadOK, With, Filled;
      LazyRoom();
      var maxInsert := strstart + lookahead - MIN_MATCH;
      lookahead := lookahead - (prevLength - 1);
      prevLength := prevLength - 2;
      hashHead := InsertInside(maxInsert, oldHead);
      strstart := strstart + 1;
    }

    /** The loop of the lazy insertion: prevLength strings after the one at strstart. */
    method InsertInside(maxInsert: int, oldHead: nat) returns (hashHead: nat)
      requires DataOK() && Near() && ChainsOK(At() + 1) && HeadOK(oldHead)
      requires 1 <= prevLength && base + maxInsert + MIN_MATCH <= delivered
      requires strstart + prevLength > maxInsert ==> base + maxInsert + MIN_MATCH == |input|
      modifies this`strstart, this`prevLength, this`insH, this`own, this`ins, prev, head
      ensures DataOK() && Near() && ChainsOK(At() + 1) && HeadOK(hashHead)
      ensures strstart == old(strstart + prevLength) && ins == With(input, old(ins), old(At()) + 1, At() + 1)
    {
      hide DataOK, ChainsOK, HeadOK, With;
      hashHead := oldHead;
      WithNone(input, ins, At() + 1);
      while true
        invariant DataOK() && Near() && ChainsOK(At() + 1) && HeadOK(hashHead)
        invariant ins == With(input, old(ins), old(At()) + 1, At() + 1)
        invariant 1 <= prevLength && strstart + prevLength == old(strstart + prevLength)
        decreases prevLength
      {
        strstart := strstart + 1;
        WithNext(input, old(ins), old(At()) + 1, At());
        hashHead := InsertUpTo(maxInsert, hashHead);
        prevLength := prevLength - 1;
        if prevLength == 0 {
          break;
        }
      }
    }

    /** A match stays within what has been delivered; if its strings do not, the file has ended. */
    lemma LazyRoom()
      requires WindowOK() && Filled()
      ensures DataOK() && Near() && base + strstart + lookahead == delivered
      ensures lookahead < MIN_LOOKAHEAD ==> delivered == |input|
    {
    }

    /** The greedy run at the start of a turn. */
    ghost function GreedyState(): Greedy
      reads this`base, this`strstart, this`ins, this`blocks, this`tokens
    {
      Greedy(At(), ins, Out())
    }

    /** The greedy loop, for levels 1 to 3. */
    method DeflateFast() returns (ghost edges: seq<bool>)
      requires WindowOK() && ChainsOK(At()) && Filled() && Configured() && NiceOK() && Emitted(At())
      requires GreedyState() == Greedy(0, {}, [])
      modifies this`strstart, this`lookahead, this`blockStart, this`matchStart, this`insH, this`niceMatch
      modifies this`prevLength, this`tokens, this`blocks, this`own, this`ins, this`eofile, this`delivered, this`base
      modifies window, prev, head
      ensures Done()
      ensures GreedyRun(input, w, Numbers(level), edges).p == |input|
      ensures GreedyRun(input, w, Numbers(level), edges).out == Out()
    {
      hide Shaped, T, ChainsOK, Emitted, Done, Configured, NiceOK, GreedyStep, Numbers, Out;
      var hashHead: nat, matchLength: nat := NIL, 0;
      prevLength, edges := MIN_MATCH - 1, [];
      while lookahead != 0
        invariant WindowOK() && ChainsOK(At()) && Filled() && Configured() && Emitted(At()) && HeadOK(hashHead)
        invariant NiceOK() && matchLength < MIN_MATCH && prevLength == MIN_MATCH - 1
        invariant GreedyState() == GreedyRun(input, w, Numbers(level), edges)
        decreases |input| - At()
      {
        edges := edges + [Edge()];
        assert edges[..|edges| - 1] + [Edge()] == edges;
        hashHead, matchLength := FastStep(hashHead, matchLength);
      }
      Finish();
    }

    /** Everything has been read, tokenised and flushed, in blocks of which only the last is marked. */
    ghost predicate Done()
      reads this`blocks, this`input, this`tokens
    {
      && Tiled(blocks, input, |input|) && tokens == []
      && |blocks| > 0 && forall i :: 0 <= i < |blocks| ==> (blocks[i].eof <==> i == |blocks| - 1)
    }

    method StepOver()
      requires WindowOK() && ChainsOK(At() + 1) && lookahead > 0
      modifies this`strstart, this`lookahead
      ensures WindowOK() && ChainsOK(At()) && At() == old(At()) + 1 && lookahead == old(lookahead) - 1
    {
      lookahead := lookahead - 1;
      strstart := strstart + 1;
    }

    method FastStep(oldHead: nat, oldLength: nat) returns (hashHead: nat, matchLength: nat)
      requires WindowOK() && ChainsOK(At()) && Filled() && Configured() && NiceOK() && Emitted(At()) && HeadOK(oldHead)
      requires oldLength < MIN_MATCH && prevLength == MIN_MATCH - 1 && lookahead != 0
      modifies this`strstart, this`lookahead, this`blockStart, this`matchStart, this`insH, this`niceMatch
      modifies this`tokens, this`blocks, this`own, this`ins, this`eofile, this`delivered, this`base
      modifies window, prev, head
      ensures WindowOK() && ChainsOK(At()) && Filled() && NiceOK() && Emitted(At()) && HeadOK(hashHead)
      ensures matchLength < MIN_MATCH && old(At()) < At() <= |input|
      ensures GreedyState() == GreedyStep(input, w, Numbers(level), old(Edge()), old(GreedyState()))
    {
      hide Tables.Chained, Tables.Complete, Tables.LinkOK, Rolls, PowerOfTwo, Emitted, Repeats, U32, GreedyStep;
      hashHead, matchLength := FastTurn(oldHead, oldLength);
      Refill(At());
    }

    method Finish()
      requires DataOK() && At() == delivered == |input| && Emitted(At())
      modifies this`blocks, this`tokens
      ensures Done() && Out() == old(Out())
    {
      FlushBlock(true);
    }

    /** One turn of the greedy loop, before the window is filled again: the step of the greedy run. */
    method FastTurn(oldHead: nat, oldLength: nat) returns (hashHead: nat, matchLength: nat)
      requires WindowOK() && ChainsOK(At()) && Filled() && Configured() && NiceOK() && Emitted(At()) && HeadOK(oldHead)
      requires oldLength < MIN_MATCH && prevLength == MIN_MATCH - 1 && lookahead != 0
      modifies this`strstart, this`lookahead, this`blockStart, this`matchStart, this`insH, this`niceMatch
      modifies this`tokens, this`blocks, this`own, this`ins, prev, head
      ensures WindowOK() && ChainsOK(At()) && NiceOK() && Emitted(At()) && HeadOK(hashHead)
      ensures matchLength < MIN_MATCH && old(At()) < At()
      ensures GreedyState() == GreedyStep(input, w, Numbers(level), old(Edge()), old(GreedyState()))
    {
      hide DataOK, Filled, Configured, ChainsOK, Found, Emitted, Repeats, U32, Out, With, HeadOK;
      hide GreedyFind, GreedyStep, Numbers;
      ghost var s, edge, c := GreedyState(), Edge(), Numbers(level);
      AheadOf();
      hashHead, matchLength := FastMatch(oldHead, oldLength);
      if matchLength >= MIN_MATCH {
        GreedyMatched(input, w, c, edge, s, ins, matchLength, base + matchStart);
        NoWrap(strstart - matchStart);
        hashHead := AdoptMatch(matchLength, hashHead);
        matchLength := 0;
      } else {
        GreedyUnmatched(input, w, c, edge, s, ins);
        AdoptLiteral();
      }
    }

    /** What a turn knows of the bytes around strstart. */
    lemma AheadOf()
      requires WindowOK() && Filled() && Configured() && lookahead != 0
      ensures At() < |input| && strstart < 0x1_0000 && strstart < window.Length && window[strstart] == input[At()]
      ensures strstart >= 1 ==> window[strstart - 1] == input[At() - 1]
      ensures maxLazyMatch == Numbers(level).lazy && (lookahead <= 1 ==> eofile)
      ensures prev != (window as object) && head != (window as object)
    {
    }

    /** Insertion and search at the start of a greedy turn. */
    method FastMatch(oldHead: nat, oldLength: nat) returns (hashHead: nat, matchLength: nat)
      requires WindowOK() && ChainsOK(At()) && Filled() && Configured() && NiceOK() && HeadOK(oldHead)
      requires oldLength < MIN_MATCH && prevLength == MIN_MATCH - 1 && lookahead != 0
      modifies this`matchStart, this`insH, this`niceMatch, this`own, this`ins, prev, head
      ensures WindowOK() && ChainsOK(At() + 1) && NiceOK() && HeadOK(hashHead)
      ensures matchLength >= MIN_MATCH ==> matchLength <= lookahead && Found(matchLength) && matchStart < strstart
      ensures ins == With(input, old(ins), At(), At() + 1) && GreedyChoice(matchLength)
    {
      hide Tables.Chained, Tables.Complete, Tables.LinkOK, Rolls, PowerOfTwo, Repeats, U32, With, GreedyFind, Found;
      hashHead := InsertCurrent(oldHead);
      matchLength := FastFind(hashHead, oldLength);
    }

    /** The search of the greedy run has the same outcome. */
    ghost predicate GreedyChoice(matchLength: nat)
      reads this`base, this`strstart, this`matchStart, this`input, this`ins, this`level
    {
      && At() <= |input|
      && var f := GreedyFind(input, w, Numbers(level), ins, At(), Edge());
         if matchLength < MIN_MATCH then f.len < MIN_MATCH else f == Find(matchLength, base + matchStart)
    }

    /** The search of one greedy turn. */
    method FastFind(hashHead: nat, oldLength: nat) returns (matchLength: nat)
      requires WindowOK() && Filled() && TablesOK(At() + 1) && Configured() && NiceOK() && HeadOK(hashHead)
      requires oldLength < MIN_MATCH && prevLength == MIN_MATCH - 1 && lookahead != 0
      requires lookahead >= MIN_MATCH ==> HeadIs(hashHead)
      modifies this`matchStart, this`niceMatch
      ensures NiceOK()
      ensures matchLength >= MIN_MATCH ==> matchLength <= lookahead && Found(matchLength) && matchStart < strstart
      ensures GreedyChoice(matchLength)
    {
      hide TablesOK, PowerOfTwo, U32, Found, Finds, GreedyChoice, HeadIs, Live, Reachable;
      matchLength := oldLength;
      if hashHead != NIL && U32(strstart - hashHead) <= MaxDist() {
        HeadFacts(hashHead);
        InReach(strstart, hashHead, MaxDist());
        matchLength := TryMatch(hashHead);
        GreedySearched(hashHead, matchLength);
      } else {
        GreedyUnsearched(hashHead, matchLength);
      }
    }

    lemma GreedyUnsearched(hashHead: nat, len: nat)
      requires WindowOK() && Filled() && Configured() && (lookahead >= MIN_MATCH ==> HeadIs(hashHead))
      requires !(hashHead != NIL && U32(strstart - hashHead) <= MaxDist()) && len < MIN_MATCH
      ensures GreedyChoice(len)
    {
      hide PowerOfTwo, U32, Sought, InSight, Index, Live, HeadIs;
      if lookahead >= MIN_MATCH {
        SightIs(hashHead);
      }
    }

    lemma GreedySearched(hashHead: nat, len: nat)
      requires WindowOK() && Filled() && Configured() && (lookahead >= MIN_MATCH ==> HeadIs(hashHead))
      requires prevLength == MIN_MATCH - 1 && hashHead != NIL && U32(strstart - hashHead) <= MaxDist()
      requires len <= lookahead
      requires lookahead >= MIN_MATCH ==> Finds(hashHead, Numbers(level).nice, ChainLength(), len, matchStart)
      ensures GreedyChoice(len)
    {
      hide PowerOfTwo, U32, Sought, InSight, Index, Live, HeadIs;
      if lookahead >= MIN_MATCH {
        SightIs(hashHead);
      }
    }

    method AdoptMatch(len: nat, oldHead: nat) returns (hashHead: nat)
      requires WindowOK() && ChainsOK(At() + 1) && Filled() && Emitted(At()) && HeadOK(oldHead)
      requires MIN_MATCH <= len <= lookahead && Found(len)
      modifies this`strstart, this`lookahead, this`blockStart, this`insH
      modifies this`tokens, this`blocks, this`own, this`ins, prev, head
      ensures WindowOK() && ChainsOK(At()) && Emitted(At()) && HeadOK(hashHead) && At() == old(At()) + len
      ensures Out() == old(Out()) + [Match(old(U32(strstart - matchStart)), len)]
      ensures lookahead <= old(lookahead)
      ensures ins == if len <= maxLazyMatch && At() + MIN_MATCH <= |input|
                     then With(input, old(ins), old(At()) + 1, At()) else old(ins)
    {
      hide Tables.Chained, Tables.Complete, Tables.LinkOK, Rolls, PowerOfTwo, Emitted, Repeats, U32, Out;
      var flush := EmitMatch(U32(strstart - matchStart), len, At());
      lookahead := lookahead - len;
      hashHead := AdvanceFast(len, oldHead);
      FlushIf(flush);
    }

    method AdoptLiteral()
      requires WindowOK() && ChainsOK(At() + 1) && Emitted(At()) && lookahead > 0
      modifies this`strstart, this`lookahead, this`blockStart, this`tokens, this`blocks
      ensures WindowOK() && ChainsOK(At()) && Emitted(At()) && At() == old(At()) + 1
      ensures lookahead < old(lookahead) && Out() == old(Out()) + [Literal(old(window[strstart]))]
    {
      hide Tables.Chained, Tables.Complete, Tables.LinkOK, Rolls, PowerOfTwo, Emitted, Out;
      var flush := EmitLiteral(window[strstart], At());
      StepOver();
      FlushIf(flush);
    }

    /** The lazy run at the start of a turn. Near the end of the file the program's length may be one, which
        is as good as none. */
    ghost function LazyState(matchLength: nat, available: bool): Lazy
      reads this`base, this`strstart, this`matchStart, this`ins, this`blocks, this`tokens
    {
      if matchLength >= MIN_MATCH then Lazy(At(), ins, matchLength, Distance(), available, Out())
      else Lazy(At(), ins, MIN_MATCH - 1, 0, available, Out())
    }

    /** The lazy loop: a match is adopted only if the next position has no longer one. */
    method DeflateLazy() returns (ghost edges: seq<bool>)
      requires WindowOK() && ChainsOK(At()) && Filled() && Configured() && NiceOK() && Emitted(At())
      requires LazyState(MIN_MATCH - 1, false) == Lazy(0, {}, MIN_MATCH - 1, 0, false, [])
      modifies this`strstart, this`lookahead, this`blockStart, this`matchStart, this`insH, this`niceMatch
      modifies this`prevLength, this`tokens, this`blocks, this`own, this`ins, this`eofile, this`delivered, this`base
      modifies window, prev, head
      ensures Done()
      ensures LazyRun(input, w, Numbers(level), edges).p == |input|
      ensures LazyOut(input, LazyRun(input, w, Numbers(level), edges)) == Out()
    {
      hide Shaped, DataOK, WindowOK, T, ChainsOK, Filled, Emitted, Done, LazyOK, Configured, NiceOK, LazyState;
      hide LazyStep, Numbers, Out, LazyOut;
      var hashHead: nat, matchLength: nat, available := NIL, MIN_MATCH - 1, false;
      edges := [];
      LazyStart();
      while lookahead != 0
        invariant WindowOK() && ChainsOK(At()) && Filled() && Configured() && NiceOK() && HeadOK(hashHead)
        invariant LazyOK(matchLength, available)
        invariant LazyState(matchLength, available) == LazyRun(input, w, Numbers(level), edges)
        decreases |input| - At()
      {
        edges := edges + [Edge()];
        assert edges[..|edges| - 1] + [Edge()] == edges;
        hashHead, matchLength, available := LazyNext(hashHead, matchLength, available);
      }
      LazyFinish(matchLength, available);
    }

    lemma LazyStart()
      requires WindowOK() && Emitted(At())
      ensures LazyOK(MIN_MATCH - 1, false)
    {
    }

    method LazyNext(oldHead: nat, oldLength: nat, oldAvailable: bool)
      returns (hashHead: nat, matchLength: nat, available: bool)
      requires WindowOK() && ChainsOK(At()) && Filled() && Configured() && NiceOK() && HeadOK(oldHead)
      requires LazyOK(oldLength, oldAvailable) && lookahead != 0
      modifies this`strstart, this`lookahead, this`blockStart, this`matchStart, this`insH, this`niceMatch
      modifies this`prevLength, this`tokens, this`blocks, this`own, this`ins, this`eofile, this`delivered, this`base
      modifies window, prev, head
      ensures WindowOK() && ChainsOK(At()) && Filled() && NiceOK() && HeadOK(hashHead)
      ensures LazyOK(matchLength, available) && old(At()) < At() <= |input|
      ensures LazyState(matchLength, available)
           == LazyStep(input, w, Numbers(level), old(Edge()), old(LazyState(oldLength, oldAvailable)))
    {
      hide Tables.Chained, Tables.Complete, Tables.LinkOK, Rolls, PowerOfTwo, Emitted, Repeats, U32, LazyStep;
      hashHead, matchLength, available := LazyTurn(oldHead, oldLength, oldAvailable);
      Refill(if available then At() - 1 else At());
    }

    /** The byte held back at the end is a literal; its flush flag is ignored. */
    method LazyFinish(matchLength: nat, available: bool)
      requires WindowOK() && Filled() && LazyOK(matchLength, available) && lookahead == 0
      modifies this`blocks, this`tokens
      ensures Done() && old(LazyState(matchLength, available)).p == |input|
      ensures Out() == LazyOut(input, old(LazyState(matchLength, available)))
    {
      hide PowerOfTwo, Emitted, Done, Repeats, U32;
      if available {
        var ignored := EmitLiteral(window[strstart - 1], At() - 1);
      }
      Finish();
    }

    /** Between turns: one byte may be held back, and if a match of it is pending it is a true one. */
    ghost predicate LazyOK(matchLength: nat, available: bool)
      reads this`base, this`strstart, this`matchStart, this`blockStart, this`lookahead, this`eofile
      reads this`input, this`blocks, this`tokens
    {
      && Emitted(if available then At() - 1 else At()) && Pending(matchLength)
      && (available ==> strstart >= 1) && (matchLength >= MIN_MATCH ==> available)
      && matchLength <= MAX_MATCH && (matchLength >= MIN_MATCH - 1 || (lookahead == 0 && eofile))
    }

    lemma LazyOpens(matchLength: nat, available: bool)
      requires LazyOK(matchLength, available)
      ensures Emitted(if available then At() - 1 else At()) && (available ==> strstart >= 1)
      ensures matchLength >= MIN_MATCH ==>
                available && Distance() <= MaxDist() && Repeats(input, At() - 1, Distance(), matchLength)
      ensures matchLength <= MAX_MATCH && (matchLength >= MIN_MATCH - 1 || (lookahead == 0 && eofile))
    {
    }

    /** One turn of the lazy loop, before the window is filled again: the step of the lazy run. */
    method LazyTurn(oldHead: nat, oldLength: nat, oldAvailable: bool)
      returns (hashHead: nat, matchLength: nat, available: bool)
      requires WindowOK() && ChainsOK(At()) && Filled() && Configured() && NiceOK() && HeadOK(oldHead)
      requires LazyOK(oldLength, oldAvailable) && lookahead != 0
      modifies this`strstart, this`lookahead, this`blockStart, this`matchStart, this`insH, this`niceMatch
      modifies this`prevLength, this`tokens, this`blocks, this`own, this`ins, prev, head
      ensures WindowOK() && ChainsOK(At()) && NiceOK() && HeadOK(hashHead)
      ensures LazyOK(matchLength, available) && old(At()) < At()
      ensures LazyState(matchLength, available)
           == LazyStep(input, w, Numbers(level), old(Edge()), old(LazyState(oldLength, oldAvailable)))
    {
      hide DataOK, Filled, Configured, ChainsOK, Emitted, Repeats, U32, Out, With, LazyFind, LazyStep, Numbers, HeadOK;
      hide LazyOK, Found, WindowOK, Filled, Edge, U32;
      LazyOpens(oldLength, oldAvailable);
      ghost var s, edge, c := LazyState(oldLength, oldAvailable), Edge(), Numbers(level);
      var prevMatch: nat := matchStart;
      AheadOf();
      hashHead, matchLength := LazySearch(oldHead, oldLength);
      if prevLength >= MIN_MATCH && matchLength <= prevLength {
        LazyUnbeaten(input, w, c, edge, s, ins);
        hashHead := AdoptPending(prevMatch, hashHead);
        available, matchLength := false, MIN_MATCH - 1;
      } else {
        LazyBeaten(input, w, c, edge, s, ins, matchLength, base + matchStart);
        HoldNext(oldAvailable, matchLength);
        available := true;
      }
    }

    /** Insertion and search at the start of a lazy turn. */
    method LazySearch(oldHead: nat, oldLength: nat) returns (hashHead: nat, matchLength: nat)
      requires WindowOK() && ChainsOK(At()) && Filled() && Configured() && NiceOK() && HeadOK(oldHead)
      requires oldLength <= MAX_MATCH && (oldLength >= MIN_MATCH - 1 || (lookahead == 0 && eofile)) && lookahead != 0
      modifies this`matchStart, this`insH, this`niceMatch, this`prevLength, this`own, this`ins, prev, head
      ensures WindowOK() && ChainsOK(At() + 1) && NiceOK() && HeadOK(hashHead) && prevLength == oldLength
      ensures matchLength <= MAX_MATCH && (matchLength >= MIN_MATCH - 1 || lookahead <= 1)
      ensures matchLength > prevLength && matchLength >= MIN_MATCH ==> Found(matchLength) && matchStart < strstart
      ensures lookahead < MIN_MATCH ==> matchLength < MIN_MATCH
      ensures ins == With(input, old(ins), At(), At() + 1) && LazyChoice(matchLength)
    {
      hide Tables.Chained, Tables.Complete, Tables.LinkOK, Rolls, PowerOfTwo, Repeats, U32, LazyChoice;
      hashHead := InsertCurrent(oldHead);
      prevLength := oldLength;
      matchLength := LazyMatch(hashHead);
    }

    /** The search of the lazy run has the same outcome, as far as it beats the pending match. */
    ghost predicate LazyChoice(matchLength: nat)
      reads this`base, this`strstart, this`matchStart, this`input, this`ins, this`level, this`prevLength
    {
      && At() <= |input|
      && var f := LazyFind(input, w, Numbers(level), ins, At(), prevLength, Edge());
         if matchLength > prevLength && matchLength >= MIN_MATCH then f == Find(matchLength, base + matchStart)
         else f.len <= prevLength
    }

    /** The byte held back so far becomes a literal and the current one is held back instead, with the
        match found for it. */
    method HoldNext(available: bool, ghost found: nat)
      requires WindowOK() && ChainsOK(At() + 1) && lookahead > 0
      requires found <= MAX_MATCH && (found >= MIN_MATCH - 1 || (lookahead <= 1 && eofile))
      requires found >= MIN_MATCH ==> Found(found) && matchStart < strstart < 0x1_0000
      requires Emitted(if available then At() - 1 else At()) && (available ==> strstart >= 1)
      modifies this`strstart, this`lookahead, this`blockStart, this`tokens, this`blocks
      ensures WindowOK() && ChainsOK(At()) && LazyOK(found, true)
      ensures strstart == old(strstart) + 1 && lookahead == old(lookahead) - 1
      ensures found >= MIN_MATCH ==> Distance() == old(strstart) - matchStart
      ensures Out() == old(Out()) + old(if available then [Literal(window[strstart - 1])] else [])
    {
      hide DataOK, ChainsOK, Emitted, Repeats, U32, Out;
      if found >= MIN_MATCH {
        NoWrap(strstart - matchStart);
      }
      StepOnHeld(available);
    }

    method StepOnHeld(available: bool)
      requires WindowOK() && ChainsOK(At() + 1) && lookahead > 0
      requires Emitted(if available then At() - 1 else At()) && (available ==> strstart >= 1)
      modifies this`strstart, this`lookahead, this`blockStart, this`tokens, this`blocks
      ensures WindowOK() && ChainsOK(At()) && Emitted(At() - 1)
      ensures strstart == old(strstart) + 1 && lookahead == old(lookahead) - 1
      ensures Out() == old(Out()) + old(if available then [Literal(window[strstart - 1])] else [])
    {
      hide Tables.Chained, Tables.Complete, Tables.LinkOK, Rolls, PowerOfTwo, Emitted, Out;
      if available {
        var flush := EmitLiteral(window[strstart - 1], At() - 1);
        FlushIf(flush);
      }
      StepOver();
    }

    /** The search of one lazy turn; only a match longer than the pending one matters afterwards. */
    method LazyMatch(hashHead: nat) returns (matchLength: nat)
      requires WindowOK() && Filled() && TablesOK(At() + 1) && Configured() && NiceOK() && HeadOK(hashHead)
      requires lookahead >= MIN_MATCH ==> HeadIs(hashHead)
      requires MIN_MATCH - 1 <= prevLength <= MAX_MATCH
      modifies this`matchStart, this`niceMatch
      ensures NiceOK()
      ensures matchLength <= MAX_MATCH && (matchLength >= MIN_MATCH - 1 || lookahead <= 1)
      ensures matchLength > prevLength && matchLength >= MIN_MATCH ==> Found(matchLength) && matchStart < strstart
      ensures lookahead < MIN_MATCH ==> matchLength < MIN_MATCH
      ensures LazyChoice(matchLength)
    {
      hide TablesOK, PowerOfTwo, Repeats, U32, Finds, LazyChoice, HeadIs, Live, Reachable;
      matchLength := MIN_MATCH - 1;
      if hashHead != NIL && prevLength < maxLazyMatch && U32(strstart - hashHead) <= MaxDist() {
        HeadFacts(hashHead);
        InReach(strstart, hashHead, MaxDist());
        var len := TryMatch(hashHead);
        matchLength := len;
        if matchLength == MIN_MATCH && U32(strstart - matchStart) > TOO_FAR {
          matchLength := MIN_MATCH - 1;
        }
        LazySearched(hashHead, len);
      } else {
        LazyUnsearched(hashHead);
      }
    }

    lemma HeadFacts(hashHead: nat)
      ensures HeadOK(hashHead) && hashHead != NIL ==> Reachable(hashHead) && hashHead < 2 * w
      ensures HeadIs(hashHead) && hashHead != NIL ==> Live(hashHead)
    {
    }

    lemma LazyUnsearched(hashHead: nat)
      requires WindowOK() && Filled() && Configured() && (lookahead >= MIN_MATCH ==> HeadIs(hashHead))
      requires MIN_MATCH - 1 <= prevLength
      requires !(hashHead != NIL && prevLength < maxLazyMatch && U32(strstart - hashHead) <= MaxDist())
      ensures LazyChoice(MIN_MATCH - 1)
    {
      hide PowerOfTwo, U32, Sought, InSight, Index, Live, HeadIs;
      if lookahead >= MIN_MATCH {
        SightIs(hashHead);
      }
    }

    lemma LazySearched(hashHead: nat, len: nat)
      requires WindowOK() && Filled() && Configured() && (lookahead >= MIN_MATCH ==> HeadIs(hashHead))
      requires MIN_MATCH - 1 <= prevLength < maxLazyMatch && hashHead != NIL && U32(strstart - hashHead) <= MaxDist()
      requires len <= lookahead
      requires lookahead >= MIN_MATCH ==> Finds(hashHead, Numbers(level).nice, ChainLength(), len, matchStart)
      requires len > prevLength && len >= MIN_MATCH ==> matchStart < strstart
      ensures LazyChoice(if len == MIN_MATCH && U32(strstart - matchStart) > TOO_FAR then MIN_MATCH - 1 else len)
    {
      hide PowerOfTwo, U32, Sought, InSight, Index, Live, HeadIs, LazyFind;
      if lookahead >= MIN_MATCH {
        SightIs(hashHead);
        LazyFound(input, w, Numbers(level), ins, At(), prevLength, Edge());
        if matchStart < strstart {
          NoWrap(strstart - matchStart);
        }
      } else {
        LazyNone(input, w, Numbers(level), ins, At(), prevLength, Edge());
      }
    }

    /** Emit the match found at the previous position, prevLength bytes from prevMatch. */
    method AdoptPending(prevMatch: nat, oldHead: nat) returns (hashHead: nat)
      requires WindowOK() && ChainsOK(At() + 1) && Filled() && HeadOK(oldHead) && strstart >= 1
      requires MIN_MATCH <= prevLength <= MAX_MATCH && U32(strstart - 1 - prevMatch) <= MaxDist()
      requires Repeats(input, At() - 1, U32(strstart - 1 - prevMatch), prevLength) && Emitted(At() - 1)
      modifies this`strstart, this`lookahead, this`blockStart, this`prevLength, this`insH
      modifies this`tokens, this`blocks, this`own, this`ins, prev, head
      ensures WindowOK() && ChainsOK(At()) && LazyOK(MIN_MATCH - 1, false) && HeadOK(hashHead)
      ensures At() == old(At()) + old(prevLength) - 1 && ins == With(input, old(ins), old(At()) + 1, At())
      ensures lookahead <= old(lookahead)
      ensures Out() == old(Out()) + [Match(U32(old(strstart) - 1 - prevMatch), old(prevLength))]
    {
      hide Tables.Chained, Tables.Complete, Tables.LinkOK, Rolls, PowerOfTwo, Emitted, U32, Out;
      var flush := EmitMatch(U32(strstart - 1 - prevMatch), prevLength, At() - 1);
      hashHead := AdvanceLazy(oldHead);
      FlushIf(flush);
    }

    /** lm_init: start on a new file. Only head is cleared; prev keeps whatever the last file left. */
    method LmInit(packLevel: int, file: seq<bv8>) returns (ok: bool)
      requires Shaped()
      modifies this, window, prev, head
      ensures ok <==> 1 <= packLevel <= 9
      ensures ok ==> WindowOK() && ChainsOK(At()) && Filled() && Configured() && NiceOK() && Emitted(At())
      ensures ok ==> input == file && level == packLevel && At() == 0 && ins == {} && Out() == []
    {
      hide WindowOK, U32, Rolls, TablesOK, Emitted, Filled, Numbers;
      if packLevel < 1 || packLevel > 9 {
        return false;
      }
      ok := true;
      Rewind(file);
      ClearHead();
      Configure(packLevel);
      Preload();
    }

    method Rewind(file: seq<bv8>)
      requires Shaped()
      modifies this`input, this`delivered, this`base, this`tokens, this`blocks
      modifies this`strstart, this`blockStart, this`lookahead, this`eofile
      ensures WindowOK() && Emitted(0) && base == 0 && At() == 0 && lookahead == 0 && !eofile && input == file
      ensures Out() == []
    {
      input, delivered, base := file, 0, 0;
      tokens, blocks := [], [];
      strstart, blockStart, lookahead, eofile := 0, 0, 0, false;
    }

    method Configure(packLevel: nat)
      requires 1 <= packLevel <= 9
      modifies this`level, this`maxLazyMatch, this`goodMatch, this`niceMatch, this`maxChainLength
      ensures Configured() && NiceOK() && level == packLevel && niceMatch == Numbers(level).nice
    {
      var config := CONFIGURATION_TABLE[packLevel];
      level, maxLazyMatch, goodMatch := packLevel, config.lazy, config.good;
      niceMatch, maxChainLength := config.nice, config.chain;
    }

    /** The first read may fill the whole window; then there is enough lookahead or no more to read. */
    method Preload()
      requires WindowOK() && base == 0 && At() == 0 && lookahead == 0 && !eofile && TablesOK(0) && Emitted(0)
      modifies this`strstart, this`lookahead, this`blockStart, this`matchStart, this`eofile, this`delivered
      modifies this`base, this`insH, window, prev, head
      ensures WindowOK() && ChainsOK(0) && At() == 0 && Filled() && Emitted(0)
    {
      hide PowerOfTwo, U32, Rolls, Tables.Chained, Tables.Complete, Emitted;
      ReadMore(2 * w);
      if lookahead == 0 {
        Restart(insH, input, 0);
        return;
      }
      Refill(0);
      StartKey();
    }

    /** The running key of the first two bytes; garbage if there are fewer, but then it is never used. */
    method StartKey()
      requires WindowOK() && At() == 0 && (lookahead < MIN_LOOKAHEAD ==> eofile)
      modifies this`insH
      ensures Rolls(insH, input, 0)
    {
      insH := 0;
      for j := 0 to MIN_MATCH - 1
        invariant j == 0 ==> insH == 0
        invariant j == 1 ==> insH == UpdateHash(0, window[0])
        invariant j == 2 ==> insH == Hash2(window[0], window[1])
      {
        insH := UpdateHash(insH, window[j]);
      }
      assert MIN_MATCH <= |input| ==> lookahead >= 2;
      Restart(insH, input, 0);
    }

    method ClearHead()
      requires WindowOK() && base == 0
      modifies this`own, this`ins, head
      ensures WindowOK() && TablesOK(0) && ins == {}
    {
      hide Tables.Chained, Tables.Complete, PowerOfTwo, NilHeads;
      own, ins := NoneInserted(w), {};
      Clear(head);
      assert T().Shaped();
      EmptyChains(T(), input);
    }

    method Clear(table: array<nat>)
      requires table.Length == HASH_SIZE
      modifies table
      ensures table[..] == NilHeads()
    {
      forall k | 0 <= k < table.Length {
        table[k] := NIL;
      }
    }

    /** Compress one file. Whatever the reads and the flush decisions, what flush_block is handed tiles the
        file, every block's tokens expand to its own slice of it, and the tokens are those the level's
        policy chooses for the file. */
    method Deflate(packLevel: int, file: seq<bv8>) returns (ok: bool, ghost edges: seq<bool>)
      requires Shaped()
      modifies this, window, prev, head
      ensures ok <==> 1 <= packLevel <= 9
      ensures ok ==> Done() && input == file && Expand([], AllTokens(blocks)) == Some(file)
      ensures ok ==> Chosen(w, file, packLevel, edges, AllTokens(blocks))
      ensures ok && |file| >= 5 && (forall i :: 0 <= i < |file| ==> file[i] == file[0]) ==>
                [Literal(file[0]), Literal(file[0]), Match(1, Least(|file| - 2, MAX_MATCH))] <= AllTokens(blocks)
    {
      hide Tiled, Expand, AllTokens, U32, PowerOfTwo, Numbers, GreedyRun, LazyRun;
      edges := [];
      ok := LmInit(packLevel, file);
      if ok {
        if level <= 3 {
          edges := DeflateFast();
        } else {
          edges := DeflateLazy();
        }
        TiledDecodes(blocks, input, |input|);
        assert input[..|input|] == input;
        if Uniform(input) {
          UniformMatched(w, input, level, edges, AllTokens(blocks));
        }
      }
    }
  }

  /** The unsigned difference is small only if it did not wrap. */
  lemma InReach(s: nat, h: nat, d: int)
    requires s < 0x2_0000 && h < 0x2_0000 && d < 0x1_0000 && U32(s - h) <= d
    ensures h <= s && U32(s - h) == s - h
  {
  }
}
