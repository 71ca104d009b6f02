/** The meaning of an LZ77 token stream (section 3.2.3 of RFC 1951), independent of any compressor. */
module Lz77 {
  import opened Options

  const MIN_MATCH := 3
  const MAX_MATCH := 258

  datatype Token = Literal(b: bv8) | Match(distance: nat, length: nat)

  /** Copy n bytes from d back, one at a time, so that the copy may read what it has just written. */
  function CopyBack(out: seq<bv8>, d: nat, n: nat): (r: seq<bv8>)
    requires 1 <= d <= |out|
    decreases n
  {
    if n == 0 then out else CopyBack(out + [out[|out| - d]], d, n - 1)
  }

  function Step(out: seq<bv8>, t: Token): (r: Option<seq<bv8>>) {
    match t
    case Literal(b) => Some(out + [b])
    case Match(d, n) =>
      if MIN_MATCH <= n <= MAX_MATCH && 1 <= d <= 0x8000 && d <= |out| then Some(CopyBack(out, d, n)) else None
  }

  /** What a decoder that has already produced history makes of the tokens; None for an invalid stream. */
  function Expand(history: seq<bv8>, ts: seq<Token>): (r: Option<seq<bv8>>) {
    if ts == [] then Some(history)
    else
      match Expand(history, ts[..|ts| - 1])
      case None => None
      case Some(out) => Step(out, ts[|ts| - 1])
  }

  lemma {:induction false} ExpandConcat(history: seq<bv8>, xs: seq<Token>, ys: seq<Token>)
    requires Expand(history, xs).Some?
    ensures Expand(history, xs + ys) == Expand(Expand(history, xs).value, ys)
    decreases |ys|
  {
    if ys == [] {
      assert xs + ys == xs;
    } else {
      var last := |ys| - 1;
      assert (xs + ys)[..|xs + ys| - 1] == xs + ys[..last];
      ExpandConcat(history, xs, ys[..last]);
    }
  }

  /** The len bytes of s at position p repeat those d earlier; the two stretches may overlap. */
  ghost predicate Repeats(s: seq<bv8>, p: int, d: int, len: int) {
    1 <= d <= p && p + len <= |s| && forall i :: p <= i < p + len ==> s[i] == s[i - d]
  }

  lemma {:induction false} CopyBackReplays(s: seq<bv8>, p: nat, d: nat, n: nat)
    requires Repeats(s, p, d, n)
    ensures CopyBack(s[..p], d, n) == s[..p + n]
    decreases n
  {
    if n > 0 {
      assert s[..p] + [s[p - d]] == s[..p + 1];
      CopyBackReplays(s, p + 1, d, n - 1);
    }
  }

  /** One more token: if ts expands to the first p bytes of s and t says what follows, ts + [t] expands further. */
  lemma TallyLiteral(history: seq<bv8>, ts: seq<Token>, s: seq<bv8>, p: nat)
    requires p < |s| && Expand(history, ts) == Some(s[..p])
    ensures Expand(history, ts + [Literal(s[p])]) == Some(s[..p + 1])
  {
    assert (ts + [Literal(s[p])])[..|ts|] == ts;
    assert s[..p] + [s[p]] == s[..p + 1];
  }

  lemma TallyMatch(history: seq<bv8>, ts: seq<Token>, s: seq<bv8>, p: nat, d: nat, n: nat)
    requires MIN_MATCH <= n <= MAX_MATCH && d <= 0x8000 && Repeats(s, p, d, n)
    requires Expand(history, ts) == Some(s[..p])
    ensures Expand(history, ts + [Match(d, n)]) == Some(s[..p + n])
  {
    assert (ts + [Match(d, n)])[..|ts|] == ts;
    CopyBackReplays(s, p, d, n);
  }

  /** What flush_block is handed: the bytes (or NULL), their number, the end flag and the tokens tallied. */
  datatype Block = Block(buf: Option<seq<bv8>>, length: int, eof: bool, tokens: seq<Token>)

  /** The blocks cover the first n bytes of s in order, without gap or overlap; each one's tokens
      expand, after everything before it, to exactly its own slice, and a non-NULL buffer is that slice. */
  ghost predicate Tiled(blocks: seq<Block>, s: seq<bv8>, n: int)
    decreases |blocks|
  {
    if blocks == [] then n == 0
    else
      var b := blocks[|blocks| - 1];
      var from := n - b.length;
      && 0 <= from <= n <= |s|
      && Tiled(blocks[..|blocks| - 1], s, from)
      && Expand(s[..from], b.tokens) == Some(s[..n])
      && (b.buf.Some? ==> b.buf.value == s[from..n])
  }

  function AllTokens(blocks: seq<Block>): seq<Token> {
    if blocks == [] then [] else AllTokens(blocks[..|blocks| - 1]) + blocks[|blocks| - 1].tokens
  }

  /** A decoder started with nothing rebuilds the tiled bytes from the tokens of all blocks. */
  lemma {:induction false} TiledDecodes(blocks: seq<Block>, s: seq<bv8>, n: int)
    requires Tiled(blocks, s, n)
    ensures 0 <= n <= |s| && Expand([], AllTokens(blocks)) == Some(s[..n])
    decreases |blocks|
  {
    if blocks != [] {
      var b := blocks[|blocks| - 1];
      TiledDecodes(blocks[..|blocks| - 1], s, n - b.length);
      ExpandConcat([], AllTokens(blocks[..|blocks| - 1]), b.tokens);
    }
  }

  lemma TiledAppend(blocks: seq<Block>, b: Block, s: seq<bv8>, n: int)
    requires 0 <= n - b.length <= n <= |s| && Tiled(blocks, s, n - b.length)
    requires Expand(s[..n - b.length], b.tokens) == Some(s[..n])
    requires b.buf.Some? ==> b.buf.value == s[n - b.length..n]
    ensures Tiled(blocks + [b], s, n)
  {
  }
}
