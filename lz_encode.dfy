/**
  The Yay0 encoder of src/Compression.cpp:187-297.

  The encoder walks the input once.  At each position it searches the
  window of already-encoded bytes for the longest earlier match; a match of
  at least three bytes becomes a back-reference (a 16-bit link word, and
  for long matches one extra byte in the chunk stream), anything shorter
  becomes a literal byte in the chunk stream.  One flag bit per symbol
  (1 = literal) is collected MSB-first into 32-bit mask words.

  `Yay0Parse` is the specification of that walk as a sequence of tokens;
  `Yay0CompressInto` is the loop over the mask, link and chunk buffers and
  is proved to produce exactly the tokens' encoding.  The source then
  writes the mask buffer into all three sections (lines 286-290); that
  output is `Yay0CompressAsWritten`, and `Yay0Compress` is the container
  with the link and chunk buffers in their sections.
*/
module LzEncode {
  import opened Util
  import opened Bytes
  import opened LzDecode

  /** `1 << OFSBITS`: the window is renormalised once it reaches this length. */
  const WINDOW_SIZE: nat := 0x1000
  /** `minCount`: the shortest match worth a link. */
  const MIN_COUNT: nat := 3
  /** The initial `maxCount`: the longest match a link can describe. */
  const MAX_COUNT: nat := 273

  datatype Token = Literal(b: byte) | Match(dist: nat, len: nat)

  /** The best match found so far: `maxlen` and `linkOffset`. */
  datatype Candidate = Candidate(len: nat, offset: nat)

  function Min(a: nat, b: nat): nat {
    if a < b then a else b
  }

  // =====================================================================
  // The match search (lines 225-238)
  // =====================================================================

  /**
    The inner `for (length = 0; ...)` loop: how many bytes starting at `a`
    equal the bytes starting at `b`, counting at most `bound`.
  */
  function MatchLen(src: seq<byte>, a: nat, b: nat, bound: nat): (n: nat)
    requires a + bound <= |src| && b + bound <= |src|
    ensures n <= bound
    decreases bound
  {
    if bound == 0 || src[a] != src[b] then 0
    else 1 + MatchLen(src, a + 1, b + 1, bound - 1)
  }

  /** The matched bytes agree, and the byte after them does not (unless the bound stopped the count). */
  lemma {:induction false} MatchLenMatches(src: seq<byte>, a: nat, b: nat, bound: nat)
    requires a + bound <= |src| && b + bound <= |src|
    ensures src[a..a + MatchLen(src, a, b, bound)] == src[b..b + MatchLen(src, a, b, bound)]
    ensures MatchLen(src, a, b, bound) < bound ==>
              src[a + MatchLen(src, a, b, bound)] != src[b + MatchLen(src, a, b, bound)]
    decreases bound
  {
    if bound > 0 && src[a] == src[b] {
      MatchLenMatches(src, a + 1, b + 1, bound - 1);
      var m := MatchLen(src, a + 1, b + 1, bound - 1);
      assert MatchLen(src, a, b, bound) == 1 + m;
      SliceCons(src, a, m);
      SliceCons(src, b, m);
    }
  }

  /** A slice is its first byte followed by the rest. */
  lemma SliceCons(src: seq<byte>, a: nat, m: nat)
    requires a + 1 + m <= |src|
    ensures src[a..a + 1 + m] == [src[a]] + src[a + 1..a + 1 + m]
  {
  }

  /**
    The length of the match against window position `j`: the window starts
    `windowLen` bytes before `decPtr`, and the match may neither run past
    the window's end nor exceed `maxCount`.
  */
  function CandidateLen(src: seq<byte>, decPtr: nat, windowLen: nat, maxCount: nat, j: nat): nat
    requires windowLen <= decPtr && decPtr + maxCount <= |src| && j < windowLen
  {
    MatchLen(src, decPtr, decPtr - windowLen + j, Min(windowLen - j, maxCount))
  }

  /**
    The outer `for (i = 0; i < windowLen; i++)` loop after `i` rounds: a
    strictly longer match replaces the current best, so the first (most
    distant) of the longest matches wins.
  */
  function Search(src: seq<byte>, decPtr: nat, windowLen: nat, maxCount: nat, i: nat): (r: Candidate)
    requires windowLen <= decPtr && decPtr + maxCount <= |src| && i <= windowLen
    ensures r.len <= maxCount
    ensures r.len > 0 ==> windowLen - i < r.offset <= windowLen && r.len <= r.offset
    ensures r.len == 0 ==> r == Candidate(0, 0)
  {
    if i == 0 then Candidate(0, 0)
    else
      var prev := Search(src, decPtr, windowLen, maxCount, i - 1);
      var length := CandidateLen(src, decPtr, windowLen, maxCount, i - 1);
      if length > prev.len then Candidate(length, windowLen - (i - 1)) else prev
  }

  /**
    The search keeps the longest match of the window positions it has
    tried, and among equally long ones the first, that is the most distant.
  */
  lemma {:induction false} SearchIsLongest(src: seq<byte>, decPtr: nat, windowLen: nat, maxCount: nat, i: nat)
    requires windowLen <= decPtr && decPtr + maxCount <= |src| && i <= windowLen
    ensures var r := Search(src, decPtr, windowLen, maxCount, i);
            forall j :: 0 <= j < i ==> CandidateLen(src, decPtr, windowLen, maxCount, j) <= r.len
    ensures var r := Search(src, decPtr, windowLen, maxCount, i);
            r.len > 0 ==>
              CandidateLen(src, decPtr, windowLen, maxCount, windowLen - r.offset) == r.len &&
              forall j :: 0 <= j < windowLen - r.offset ==> CandidateLen(src, decPtr, windowLen, maxCount, j) < r.len
  {
    if i > 0 {
      SearchIsLongest(src, decPtr, windowLen, maxCount, i - 1);
    }
  }

  /** The bytes of the best match repeat the bytes `offset` positions back. */
  lemma SearchMatches(src: seq<byte>, decPtr: nat, windowLen: nat, maxCount: nat)
    requires windowLen <= decPtr && decPtr + maxCount <= |src|
    ensures var r := Search(src, decPtr, windowLen, maxCount, windowLen);
            src[decPtr..decPtr + r.len] == src[decPtr - r.offset..decPtr - r.offset + r.len]
  {
    var r := Search(src, decPtr, windowLen, maxCount, windowLen);
    if r.len > 0 {
      SearchIsLongest(src, decPtr, windowLen, maxCount, windowLen);
      var j := windowLen - r.offset;
      assert decPtr - windowLen + j == decPtr - r.offset;
      MatchLenMatches(src, decPtr, decPtr - windowLen + j, Min(windowLen - j, maxCount));
    }
  }

  // =====================================================================
  // The walk over the input (lines 213-268)
  // =====================================================================

  /** One iteration's outcome: the token, and the `decPtr`, `windowLen` and `maxCount` after it. */
  datatype Emit = Emit(token: Token, next: nat, windowLen: nat, maxCount: nat)

  /**
    One iteration of the `while (decPtr < size)` loop: the window shrinks
    by 4096 once it reaches 4096 bytes (lines 214-217), `maxCount` shrinks
    to the number of bytes left (lines 219-221), and a match of at least
    `MIN_COUNT` bytes becomes a link, anything shorter a literal.
  */
  function ParseStep(src: seq<byte>, decPtr: nat, windowLen: nat, maxCount: nat): (e: Emit)
    requires windowLen <= decPtr < |src|
    ensures decPtr < e.next <= |src| && e.windowLen <= e.next
  {
    var wl := if windowLen >= WINDOW_SIZE then windowLen - WINDOW_SIZE else windowLen;
    var mc := if |src| - decPtr < maxCount then |src| - decPtr else maxCount;
    var c := Search(src, decPtr, wl, mc, wl);
    if c.len >= MIN_COUNT then Emit(Match(c.offset, c.len), decPtr + c.len, wl + c.len, mc)
    else Emit(Literal(src[decPtr]), decPtr + 1, wl + 1, mc)
  }

  /** The tokens the encoder emits from `decPtr` on. */
  function Yay0Parse(src: seq<byte>, decPtr: nat, windowLen: nat, maxCount: nat): (toks: seq<Token>)
    requires windowLen <= decPtr <= |src|
    decreases |src| - decPtr
  {
    if decPtr == |src| then []
    else
      var e := ParseStep(src, decPtr, windowLen, maxCount);
      [e.token] + Yay0Parse(src, e.next, e.windowLen, e.maxCount)
  }

  /** The encoder's tokens for a whole input. */
  function Tokens(src: seq<byte>): seq<Token> {
    Yay0Parse(src, 0, 0, MAX_COUNT)
  }

  /** A token the format can encode: distances fit 12 bits and lengths one extra byte. */
  predicate ValidToken(t: Token) {
    t.Match? ==> 1 <= t.dist < WINDOW_SIZE && MIN_COUNT <= t.len <= MAX_COUNT && t.len <= t.dist
  }

  predicate ValidTokens(toks: seq<Token>) {
    forall i :: 0 <= i < |toks| ==> ValidToken(toks[i])
  }

  /**
    With the window below 4096 + 273 bytes on entry, the search runs on a
    window below 4096 bytes, so a link's distance fits 12 bits, and the
    window stays below 4096 + 273 bytes.
  */
  lemma ParseStepValid(src: seq<byte>, decPtr: nat, windowLen: nat, maxCount: nat)
    requires windowLen <= decPtr < |src|
    requires windowLen < WINDOW_SIZE + MAX_COUNT && maxCount <= MAX_COUNT
    ensures var e := ParseStep(src, decPtr, windowLen, maxCount);
            ValidToken(e.token) && e.windowLen < WINDOW_SIZE + MAX_COUNT && e.maxCount <= MAX_COUNT &&
            e.next == decPtr + (if e.token.Match? then e.token.len else 1)
  {
  }

  lemma ValidTokensCons(t: Token, rest: seq<Token>)
    requires ValidToken(t) && ValidTokens(rest)
    ensures ValidTokens([t] + rest)
  {
    assert forall i :: 1 <= i < |rest| + 1 ==> ([t] + rest)[i] == rest[i - 1];
  }

  /** Every token of the walk can be encoded. */
  lemma {:induction false} ParseValid(src: seq<byte>, decPtr: nat, windowLen: nat, maxCount: nat)
    requires windowLen <= decPtr <= |src|
    requires windowLen < WINDOW_SIZE + MAX_COUNT && maxCount <= MAX_COUNT
    ensures ValidTokens(Yay0Parse(src, decPtr, windowLen, maxCount))
    decreases |src| - decPtr
  {
    if decPtr < |src| {
      var e := ParseStep(src, decPtr, windowLen, maxCount);
      ParseStepValid(src, decPtr, windowLen, maxCount);
      ParseValid(src, e.next, e.windowLen, e.maxCount);
      ValidTokensCons(e.token, Yay0Parse(src, e.next, e.windowLen, e.maxCount));
    }
  }

  lemma TokensValid(src: seq<byte>)
    ensures ValidTokens(Tokens(src))
  {
    ParseValid(src, 0, 0, MAX_COUNT);
  }

  /**
    The meaning of a token sequence: a literal appends its byte, a match
    appends `len` bytes copied from `dist` bytes back.  `None` if a match
    reaches before the start.
  */
  function Expand(out: seq<byte>, toks: seq<Token>): (r: Option<seq<byte>>)
    ensures r.Some? ==> |out| <= |r.value| && r.value[..|out|] == out
    decreases |toks|
  {
    if toks == [] then Some(out)
    else match toks[0]
      case Literal(b) => Expand(out + [b], toks[1..])
      case Match(d, l) =>
        if 1 <= d <= |out| then Expand(CopyBack(out, d, l), toks[1..]) else None
  }

  /** A back-reference whose bytes repeat the bytes `d` back extends a prefix by those bytes. */
  lemma {:induction false} CopyBackPrefix(src: seq<byte>, p: nat, d: nat, n: nat)
    requires 1 <= d <= p && p + n <= |src|
    requires src[p..p + n] == src[p - d..p - d + n]
    ensures CopyBack(src[..p], d, n) == src[..p + n]
  {
    if n > 0 {
      SliceEqShrink(src, p, p - d, n);
      CopyBackPrefix(src, p, d, n - 1);
      assert src[..p + n] == src[..p + n - 1] + [src[p + n - 1]];
    }
  }

  /** Two equal slices stay equal without their last byte, and their last bytes agree. */
  lemma SliceEqShrink(src: seq<byte>, i: nat, j: nat, n: nat)
    requires 0 < n && i + n <= |src| && j + n <= |src| && src[i..i + n] == src[j..j + n]
    ensures src[i..i + n - 1] == src[j..j + n - 1] && src[i + n - 1] == src[j + n - 1]
  {
    assert src[i..i + n - 1] == src[i..i + n][..n - 1];
    assert src[j..j + n - 1] == src[j..j + n][..n - 1];
    assert src[i + n - 1] == src[i..i + n][n - 1];
    assert src[j + n - 1] == src[j..j + n][n - 1];
  }

  /** A token of the walk extends the bytes already passed by the bytes it stands for. */
  lemma ParseStepExpands(src: seq<byte>, decPtr: nat, windowLen: nat, maxCount: nat)
    requires windowLen <= decPtr < |src|
    ensures var e := ParseStep(src, decPtr, windowLen, maxCount);
            Expand(src[..decPtr], [e.token]) == Some(src[..e.next])
  {
    var wl := if windowLen >= WINDOW_SIZE then windowLen - WINDOW_SIZE else windowLen;
    var mc := if |src| - decPtr < maxCount then |src| - decPtr else maxCount;
    var c := Search(src, decPtr, wl, mc, wl);
    var e := ParseStep(src, decPtr, windowLen, maxCount);
    if c.len >= MIN_COUNT {
      assert e.token == Match(c.offset, c.len) && e.next == decPtr + c.len;
      SearchMatches(src, decPtr, wl, mc);
      MatchExpands(src, decPtr, c.offset, c.len);
    } else {
      assert e.token == Literal(src[decPtr]) && e.next == decPtr + 1;
      LiteralExpands(src, decPtr);
    }
  }

  /** A link whose bytes repeat the bytes `d` back stands for them. */
  lemma MatchExpands(src: seq<byte>, p: nat, d: nat, n: nat)
    requires 1 <= d <= p && p + n <= |src|
    requires src[p..p + n] == src[p - d..p - d + n]
    ensures Expand(src[..p], [Match(d, n)]) == Some(src[..p + n])
  {
    CopyBackPrefix(src, p, d, n);
    assert [Match(d, n)][1..] == [];
  }

  /** A literal stands for its byte. */
  lemma LiteralExpands(src: seq<byte>, p: nat)
    requires p < |src|
    ensures Expand(src[..p], [Literal(src[p])]) == Some(src[..p + 1])
  {
    assert src[..p] + [src[p]] == src[..p + 1];
    assert [Literal(src[p])][1..] == [];
  }

  /** Expanding a sequence of tokens one token at a time. */
  lemma ExpandCons(out: seq<byte>, t: Token, rest: seq<Token>, mid: seq<byte>)
    requires Expand(out, [t]) == Some(mid)
    ensures Expand(out, [t] + rest) == Expand(mid, rest)
  {
    assert ([t] + rest)[1..] == rest;
    assert [t][1..] == [];
  }

  /** The walk loses nothing: expanding its tokens after the bytes already passed gives the input. */
  lemma {:induction false} ParseExpands(src: seq<byte>, decPtr: nat, windowLen: nat, maxCount: nat)
    requires windowLen <= decPtr <= |src|
    ensures Expand(src[..decPtr], Yay0Parse(src, decPtr, windowLen, maxCount)) == Some(src)
    decreases |src| - decPtr
  {
    if decPtr == |src| {
      assert src[..decPtr] == src;
    } else {
      var e := ParseStep(src, decPtr, windowLen, maxCount);
      ParseStepExpands(src, decPtr, windowLen, maxCount);
      ExpandCons(src[..decPtr], e.token, Yay0Parse(src, e.next, e.windowLen, e.maxCount), src[..e.next]);
      ParseExpands(src, e.next, e.windowLen, e.maxCount);
    }
  }

  lemma TokensExpand(src: seq<byte>)
    ensures Expand([], Tokens(src)) == Some(src)
  {
    ParseExpands(src, 0, 0, MAX_COUNT);
    assert src[..0] == [];
  }

  // =====================================================================
  // Encoding the tokens (lines 240-283)
  // =====================================================================

  /** One flag per token, 1 for a literal (lines 242 and 258). */
  function Flags(toks: seq<Token>): (f: seq<bool>)
    ensures |f| == |toks| && forall i :: 0 <= i < |toks| ==> f[i] == toks[i].Literal?
  {
    seq(|toks|, i requires 0 <= i < |toks| => toks[i].Literal?)
  }

  /** The flags shifted in MSB-first: `mask <<= 1; mask |= flag` on an unbounded register. */
  function Horner(fl: seq<bool>): (v: nat)
    ensures v < Pow2(|fl|)
  {
    if fl == [] then 0
    else 2 * Horner(fl[..|fl| - 1]) + (if fl[|fl| - 1] then 1 else 0)
  }

  /** A flushed mask word: a group of at most 32 flags, left-aligned (lines 261-273). */
  function MaskWord(g: seq<bool>): (w: u32)
    requires |g| <= 32
  {
    MaskWordBound(g);
    Horner(g) * Pow2(32 - |g|)
  }

  lemma MaskWordBound(g: seq<bool>)
    requires |g| <= 32
    ensures Horner(g) * Pow2(32 - |g|) < TWO_32
  {
    var h, q, p := Horner(g), Pow2(|g|), Pow2(32 - |g|);
    assert q * p == TWO_32 by {
      Pow2Add(|g|, 32 - |g|);
      Pow2Facts();
    }
    MulBelow(h, q, p);
  }

  /** The mask buffer: full groups of 32 flags, then the remainder. */
  function MaskWords(fl: seq<bool>): (ws: seq<u32>)
    ensures |ws| == (|fl| + 31) / 32
    decreases |fl|
  {
    if fl == [] then []
    else if |fl| <= 32 then [MaskWord(fl)]
    else [MaskWord(fl[..32])] + MaskWords(fl[32..])
  }

  /**
    The link word of a match (lines 243-250): the distance minus one in
    the low 12 bits and, for a match shorter than 18 bytes, the length
    minus two in the top nibble.  The two parts occupy disjoint bits, so
    the `|` is a sum.
  */
  function LinkWord(t: Token): (w: nat)
    requires t.Match? && ValidToken(t)
    ensures w < 0x1_0000
  {
    assert t.len >= 3;
    (t.dist - 1) % 0x1000 + (if t.len < 18 then (t.len - 2) * 0x1000 else 0)
  }

  function LinkWords(toks: seq<Token>): (ws: seq<nat>)
    requires ValidTokens(toks)
    ensures |ws| <= |toks| && forall i :: 0 <= i < |ws| ==> ws[i] < 0x1_0000
  {
    if toks == [] then []
    else
      var init := toks[..|toks| - 1];
      var t := toks[|toks| - 1];
      assert ValidToken(t);
      LinkWords(init) + (if t.Match? then [LinkWord(t)] else [])
  }

  /** The chunk bytes of one token: the literal, or the length byte of a long match. */
  function ChunkOf(t: Token): (c: seq<byte>)
    requires ValidToken(t)
    ensures |c| <= 1
  {
    match t
    case Literal(b) => [b]
    case Match(_, len) => if len < 18 then [] else [Byte(len - 18)]
  }

  function ChunkBytes(toks: seq<Token>): seq<byte>
    requires ValidTokens(toks)
  {
    if toks == [] then []
    else
      assert ValidToken(toks[|toks| - 1]);
      ChunkBytes(toks[..|toks| - 1]) + ChunkOf(toks[|toks| - 1])
  }

  /** 32-bit words written in big-endian order. */
  function WordsBE(ws: seq<u32>): (r: seq<byte>)
    ensures |r| == 4 * |ws|
  {
    if ws == [] then [] else WordsBE(ws[..|ws| - 1]) + Be32(ws[|ws| - 1])
  }

  /** 16-bit words written in big-endian order. */
  function HalvesBE(hs: seq<nat>): (r: seq<byte>)
    requires forall i :: 0 <= i < |hs| ==> hs[i] < 0x1_0000
    ensures |r| == 2 * |hs|
  {
    if hs == [] then [] else HalvesBE(hs[..|hs| - 1]) + Be16(hs[|hs| - 1])
  }

  /**
    The 16-byte header (lines 276-283): "Yay0", the input size, and the
    offsets of the link and chunk sections, all as `uint32_t`.
  */
  function Header(size: nat, maskPtr: nat, linkPtr: nat): (h: seq<byte>)
    ensures |h| == 16
  {
    var linkSecOff := (0x10 + 4 * maskPtr) % TWO_32;
    var chunkSecOff := (linkSecOff + 2 * linkPtr) % TWO_32;
    [0x59, 0x61, 0x79, 0x30] + Be32(size % TWO_32) + Be32(linkSecOff) + Be32(chunkSecOff)
  }

  /**
    The stream as written: the header, the mask words, and then, where the
    link and chunk sections belong, the first `2*linkPtr` and `chunkPtr`
    bytes of the mask buffer again (lines 286-290).  Bytes of the mask
    buffer that were never stored are not defined: reading them is
    `Err(Uninitialised)`.
  */
  function Yay0CompressAsWritten(src: seq<byte>): (r: Result<seq<byte>>)
    ensures r.Ok? ==> 16 <= |r.value|
  {
    TokensValid(src);
    var toks := Tokens(src);
    var masks := MaskWords(Flags(toks));
    var links := LinkWords(toks);
    var chunks := ChunkBytes(toks);
    var maskBytes := WordsBE(masks);
    if 2 * |links| > |maskBytes| || |chunks| > |maskBytes| then Err(Uninitialised)
    else Ok(Header(|src|, |masks|, |links|) + maskBytes + maskBytes[..2 * |links|] + maskBytes[..|chunks|])
  }

  /** The stream with each buffer in its own section. */
  function Yay0Compress(src: seq<byte>): (r: seq<byte>)
    ensures 16 <= |r|
  {
    TokensValid(src);
    var toks := Tokens(src);
    var masks := MaskWords(Flags(toks));
    var links := LinkWords(toks);
    Header(|src|, |masks|, |links|) + WordsBE(masks) + HalvesBE(links) + ChunkBytes(toks)
  }

  // =====================================================================
  // Facts the encoder loop relies on
  // =====================================================================

  lemma ValidTokensSnoc(toks: seq<Token>, t: Token)
    requires ValidTokens(toks) && ValidToken(t)
    ensures ValidTokens(toks + [t])
  {
  }

  lemma ChunkBytesSnoc(toks: seq<Token>, t: Token)
    requires ValidTokens(toks) && ValidToken(t)
    ensures ValidTokens(toks + [t])
    ensures ChunkBytes(toks + [t]) == ChunkBytes(toks) + ChunkOf(t)
  {
    ValidTokensSnoc(toks, t);
    assert (toks + [t])[..|toks|] == toks;
  }

  lemma LinkWordsSnoc(toks: seq<Token>, t: Token)
    requires ValidTokens(toks) && ValidToken(t)
    ensures ValidTokens(toks + [t])
    ensures LinkWords(toks + [t]) == LinkWords(toks) + (if t.Match? then [LinkWord(t)] else [])
  {
    ValidTokensSnoc(toks, t);
    assert (toks + [t])[..|toks|] == toks;
  }

  lemma FlagsSnoc(toks: seq<Token>, t: Token)
    ensures Flags(toks + [t]) == Flags(toks) + [t.Literal?]
  {
  }

  lemma HornerSnoc(g: seq<bool>, b: bool)
    ensures Horner(g + [b]) == 2 * Horner(g) + (if b then 1 else 0)
  {
    assert (g + [b])[..|g|] == g;
  }

  /**
    Shifting a flag into the 32-bit mask (`mask <<= 1; mask |= flag`) keeps
    the low bits of the register equal to the flags of the current group.
  */
  lemma ShiftIn(m: u32, c: nat, b: nat)
    requires c < 32 && b < 2
    ensures Shl1(m) + b < TWO_32
    ensures (Shl1(m) + b) % Pow2(c + 1) == 2 * (m % Pow2(c)) + b
  {
    var p, bigP, k := Pow2(c), Pow2(c + 1), Pow2(31 - c);
    assert bigP == 2 * p;
    assert bigP * k == TWO_32 by {
      Pow2Add(c + 1, 31 - c);
      Pow2Facts();
    }
    AddBitMod(m, TWO_32, b);
    ModOfMod(2 * m + b, bigP, k);
    ShiftLowBits(m, p, b);
  }

  /** The register after `mask <<= 1; mask |= flag` holds the group with the new flag appended. */
  lemma ShiftFlag(m: u32, g: seq<bool>, flag: bool)
    requires |g| < 32 && m % Pow2(|g|) == Horner(g)
    ensures Shl1(m) + (if flag then 1 else 0) < TWO_32
    ensures (Shl1(m) + (if flag then 1 else 0)) % Pow2(|g| + 1) == Horner(g + [flag])
  {
    ShiftIn(m, |g|, if flag then 1 else 0);
    HornerSnoc(g, flag);
  }

  /** The tail flush `mask <<= 32 - maskBitCount` left-aligns the last group. */
  lemma TailAlign(m: u32, g: seq<bool>)
    requires 0 < |g| < 32 && m % Pow2(|g|) == Horner(g)
    ensures m * Pow2(32 - |g|) % TWO_32 == MaskWord(g)
  {
    var pc, pw := Pow2(|g|), Pow2(32 - |g|);
    assert pc * pw == TWO_32 by {
      Pow2Add(|g|, 32 - |g|);
      Pow2Facts();
    }
    MaskWordBound(g);
    ShiftMod(m, pc, pw, TWO_32);
  }

  /** A full group: the register itself is the mask word. */
  lemma FullWord(m: u32, g: seq<bool>)
    requires |g| == 32 && m % Pow2(32) == Horner(g)
    ensures m == MaskWord(g)
  {
    Pow2Facts();
  }

  /** A flag count of `32 * k` fills whole mask words. */
  lemma WholeWords(n: nat, k: nat)
    requires n == 32 * k
    ensures n % 32 == 0
  {
    ModAddMultiple(k, 32, 0);
  }

  lemma {:induction false} MaskWordsSnoc(fl: seq<bool>, g: seq<bool>)
    requires |fl| % 32 == 0 && 0 < |g| <= 32
    ensures MaskWords(fl + g) == MaskWords(fl) + [MaskWord(g)]
    decreases |fl|
  {
    if fl == [] {
      assert fl + g == g;
    } else {
      assert (fl + g)[..32] == fl[..32];
      assert (fl + g)[32..] == fl[32..] + g;
      MaskWordsSnoc(fl[32..], g);
    }
  }

  /** `Shl1` of a register leaves its lowest bit clear. */
  lemma Shl1Even(m: u32)
    ensures Shl1(m) % 2 == 0 && Shl1(m) + 1 < TWO_32
  {
    if 2 * m >= TWO_32 {
      DivModUnique(2 * m, TWO_32, 1, 2 * m - TWO_32);
    }
  }

  // =====================================================================
  // The encoder loop
  // =====================================================================

  /** The inner loop of lines 227-230. */
  method MatchLength(src: seq<byte>, a: nat, b: nat, bound: nat) returns (length: nat)
    requires a + bound <= |src| && b + bound <= |src|
    ensures length == MatchLen(src, a, b, bound)
  {
    length := 0;
    while length < bound
      invariant length <= bound
      invariant MatchLen(src, a, b, bound) == length + MatchLen(src, a + length, b + length, bound - length)
    {
      if src[a + length] != src[b + length] {
        break;
      }
      length := length + 1;
    }
  }

  /**
    The window search of lines 223-238.  `linkOffset` starts at 0 here; the
    source carries it over from the previous search, but it is only read
    after this search has set it.
  */
  method LongestMatch(src: seq<byte>, decPtr: nat, windowPtr: nat, windowLen: nat, maxCount: nat)
    returns (maxlen: nat, linkOffset: nat)
    requires windowPtr + windowLen == decPtr && decPtr + maxCount <= |src|
    ensures Candidate(maxlen, linkOffset) == Search(src, decPtr, windowLen, maxCount, windowLen)
  {
    maxlen, linkOffset := 0, 0;
    for i := 0 to windowLen
      invariant Candidate(maxlen, linkOffset) == Search(src, decPtr, windowLen, maxCount, i)
    {
      var length := MatchLength(src, decPtr, windowPtr + i, Min(windowLen - i, maxCount));
      if length > maxlen {
        maxlen := length;
        linkOffset := windowLen - i;
      }
    }
  }

  /**
    `mask <<= 1; mask |= flag; maskBitCount++` and, once 32 flags are in,
    the store into the mask buffer (lines 242, 258 and 261-266).  `done` are
    the flags already stored and `group` those still in the register.
  */
  method PushFlag(maskBuffer: array<u32>, maskPtr: nat, mask: u32, maskBitCount: nat, flag: bool,
                  ghost done: seq<bool>, ghost group: seq<bool>)
    returns (maskPtr': nat, mask': u32, maskBitCount': nat, ghost done': seq<bool>, ghost group': seq<bool>)
    requires maskPtr <= maskBuffer.Length && maskBuffer[..maskPtr] == MaskWords(done)
    requires |done| == 32 * maskPtr && |group| == maskBitCount < 32
    requires mask % Pow2(maskBitCount) == Horner(group)
    requires maskBitCount == 31 ==> maskPtr < maskBuffer.Length
    modifies maskBuffer
    ensures maskPtr' <= maskBuffer.Length && maskBuffer[..maskPtr'] == MaskWords(done')
    ensures |done'| == 32 * maskPtr' && |group'| == maskBitCount' < 32
    ensures mask' % Pow2(maskBitCount') == Horner(group')
    ensures done' + group' == done + group + [flag]
  {
    var b: nat := if flag then 1 else 0;
    ghost var g := group + [flag];
    ShiftFlag(mask, group, flag);
    mask' := Shl1(mask) + b;
    maskBitCount' := maskBitCount + 1;
    maskPtr', done', group' := maskPtr, done, g;
    if maskBitCount' == 32 {
      maskPtr', done' := StoreWord(maskBuffer, maskPtr, mask', done, g);
      maskBitCount', group' := 0, [];
      assert done' + group' == done + g;
    }
  }

  /** The store of a full register into the mask buffer (lines 262-265). */
  method StoreWord(maskBuffer: array<u32>, maskPtr: nat, mask: u32, ghost done: seq<bool>, ghost group: seq<bool>)
    returns (maskPtr': nat, ghost done': seq<bool>)
    requires maskPtr < maskBuffer.Length && maskBuffer[..maskPtr] == MaskWords(done)
    requires |done| == 32 * maskPtr && |group| == 32 && mask % Pow2(32) == Horner(group)
    modifies maskBuffer
    ensures maskPtr' == maskPtr + 1 && maskBuffer[..maskPtr'] == MaskWords(done')
    ensures done' == done + group
  {
    FullWord(mask, group);
    WholeWords(|done|, maskPtr);
    MaskWordsSnoc(done, group);
    maskBuffer[maskPtr] := mask;
    maskPtr' := maskPtr + 1;
    done' := done + group;
    assert maskBuffer[..maskPtr'] == old(maskBuffer[..maskPtr]) + [mask];
  }

  /**
    One turn of the window search (lines 213-238): slide the window back by
    4096 once it is full, clip the match length to the bytes left, search,
    and decide between a link and a literal.  Nothing is written here.
  */
  method ChooseToken(src: seq<byte>, decPtr: nat, windowPtr: nat, windowLen: nat, maxCount: nat)
    returns (e: Emit, windowPtr': nat)
    requires windowPtr + windowLen == decPtr < |src|
    ensures e == ParseStep(src, decPtr, windowLen, maxCount)
    ensures windowPtr' + e.windowLen == e.next
  {
    var wl, wp, mc := windowLen, windowPtr, maxCount;
    if wl >= WINDOW_SIZE {
      wl := wl - WINDOW_SIZE;
      wp := decPtr - wl;
    }
    if |src| - decPtr < mc {
      mc := |src| - decPtr;
    }
    var maxlen, linkOffset := LongestMatch(src, decPtr, wp, wl, mc);
    if maxlen >= MIN_COUNT {
      e := Emit(Match(linkOffset, maxlen), decPtr + maxlen, wl + maxlen, mc);
    } else {
      e := Emit(Literal(src[decPtr]), decPtr + 1, wl + 1, mc);
    }
    windowPtr' := wp;
  }

  /**
    The writes for one token (lines 243-259): a link puts its word in the
    link buffer and, when long, its length byte in the chunk buffer; a
    literal puts its byte in the chunk buffer.
  */
  method EmitToken(linkBuffer: array<nat>, linkPtr: nat, chunkBuffer: array<byte>, chunkPtr: nat,
                   t: Token, ghost toks: seq<Token>)
    returns (linkPtr': nat, chunkPtr': nat)
    requires ValidTokens(toks) && ValidToken(t)
    requires t.Match? ==> linkPtr < linkBuffer.Length
    requires chunkPtr < chunkBuffer.Length
    requires linkPtr <= linkBuffer.Length && linkBuffer[..linkPtr] == LinkWords(toks)
    requires chunkBuffer[..chunkPtr] == ChunkBytes(toks)
    requires linkBuffer as object != chunkBuffer as object
    modifies linkBuffer, chunkBuffer
    ensures linkPtr' == linkPtr + (if t.Match? then 1 else 0) && chunkPtr' <= chunkPtr + 1
    ensures linkBuffer[..linkPtr'] == LinkWords(toks + [t])
    ensures chunkBuffer[..chunkPtr'] == ChunkBytes(toks + [t])
  {
    ChunkBytesSnoc(toks, t);
    LinkWordsSnoc(toks, t);
    if t.Match? {
      linkPtr', chunkPtr' := EmitLink(linkBuffer, linkPtr, chunkBuffer, chunkPtr, t);
    } else {
      chunkBuffer[chunkPtr] := t.b;
      linkPtr', chunkPtr' := linkPtr, chunkPtr + 1;
      assert chunkBuffer[..chunkPtr'] == ChunkBytes(toks) + [t.b];
    }
  }

  /** The writes for a link (lines 243-252): its word, and for long matches its length byte. */
  method EmitLink(linkBuffer: array<nat>, linkPtr: nat, chunkBuffer: array<byte>, chunkPtr: nat, t: Token)
    returns (linkPtr': nat, chunkPtr': nat)
    requires t.Match? && ValidToken(t)
    requires linkPtr < linkBuffer.Length && chunkPtr < chunkBuffer.Length
    requires linkBuffer as object != chunkBuffer as object
    modifies linkBuffer, chunkBuffer
    ensures linkPtr' == linkPtr + 1 && linkBuffer[..linkPtr'] == old(linkBuffer[..linkPtr]) + [LinkWord(t)]
    ensures chunkPtr' == chunkPtr + |ChunkOf(t)| && chunkBuffer[..chunkPtr'] == old(chunkBuffer[..chunkPtr]) + ChunkOf(t)
  {
    var link := (t.dist - 1) % 0x1000;
    chunkPtr' := chunkPtr;
    if t.len < 18 {
      link := link + (t.len - 2) * 0x1000;
    } else {
      chunkBuffer[chunkPtr'] := Byte(t.len - 18);
      chunkPtr' := chunkPtr' + 1;
    }
    linkBuffer[linkPtr] := link;
    linkPtr' := linkPtr + 1;
  }

  /**
    The tail flush (lines 270-274): a part-filled register is shifted up to
    the top of the word and stored.
  */
  method FlushMask(maskBuffer: array<u32>, maskPtr: nat, mask: u32, maskBitCount: nat,
                   ghost done: seq<bool>, ghost group: seq<bool>)
    returns (maskPtr': nat)
    requires maskPtr <= maskBuffer.Length && maskBuffer[..maskPtr] == MaskWords(done)
    requires |done| == 32 * maskPtr && |group| == maskBitCount < 32
    requires mask % Pow2(maskBitCount) == Horner(group)
    requires maskBitCount > 0 ==> maskPtr < maskBuffer.Length
    modifies maskBuffer
    ensures maskPtr' <= maskBuffer.Length && maskBuffer[..maskPtr'] == MaskWords(done + group)
  {
    maskPtr' := maskPtr;
    if maskBitCount > 0 {
      TailAlign(mask, group);
      MaskWordsSnoc(done, group);
      maskBuffer[maskPtr'] := mask * Pow2(32 - maskBitCount) % TWO_32;
      maskPtr' := maskPtr' + 1;
      assert maskBuffer[..maskPtr'] == old(maskBuffer[..maskPtr]) + [MaskWord(group)];
    } else {
      assert done + group == done;
    }
  }

  /** The parse invariant of the encoder loop at its exit. */
  lemma ParseDone(src: seq<byte>, toks: seq<Token>, decPtr: nat, windowLen: nat, maxCount: nat)
    requires windowLen <= decPtr == |src|
    requires toks + Yay0Parse(src, decPtr, windowLen, maxCount) == Tokens(src)
    ensures toks == Tokens(src)
  {
    assert toks + [] == toks;
  }

  /** The parse invariant of the encoder loop advances by one token. */
  lemma ParseAdvance(src: seq<byte>, toks: seq<Token>, decPtr: nat, windowLen: nat, maxCount: nat)
    requires windowLen <= decPtr < |src|
    requires toks + Yay0Parse(src, decPtr, windowLen, maxCount) == Tokens(src)
    ensures var e := ParseStep(src, decPtr, windowLen, maxCount);
      (toks + [e.token]) + Yay0Parse(src, e.next, e.windowLen, e.maxCount) == Tokens(src)
  {
    var e := ParseStep(src, decPtr, windowLen, maxCount);
    assert Yay0Parse(src, decPtr, windowLen, maxCount) == [e.token] + Yay0Parse(src, e.next, e.windowLen, e.maxCount);
    assert toks + [e.token] + Yay0Parse(src, e.next, e.windowLen, e.maxCount)
        == toks + ([e.token] + Yay0Parse(src, e.next, e.windowLen, e.maxCount));
  }

  /** The scalar state of the encoder loop: its pointers, window and mask register. */
  datatype EncoderState = EncoderState(decPtr: nat, windowPtr: nat, windowLen: nat, maxCount: nat,
                                       mask: u32, maskBitCount: nat,
                                       maskPtr: nat, linkPtr: nat, chunkPtr: nat)

  /**
    What the encoder loop keeps: `toks` are the tokens emitted so far, the
    rest of the parse from `decPtr` completes them to `Tokens(src)`, and the
    three buffers hold their encoding (`done` the flags already stored as
    mask words, `group` those still in the register).
  */
  ghost predicate EncoderInv(src: seq<byte>, maskBuffer: array<u32>, linkBuffer: array<nat>,
                             chunkBuffer: array<byte>, st: EncoderState,
                             toks: seq<Token>, done: seq<bool>, group: seq<bool>)
    reads maskBuffer, linkBuffer, chunkBuffer
  {
    var n := |src|;
    maskBuffer.Length == (n + 32) / 32 && linkBuffer.Length == n / 2 && chunkBuffer.Length == n &&
    st.decPtr <= n && st.windowPtr + st.windowLen == st.decPtr &&
    st.windowLen < WINDOW_SIZE + MAX_COUNT && st.maxCount <= MAX_COUNT &&
    toks + Yay0Parse(src, st.decPtr, st.windowLen, st.maxCount) == Tokens(src) &&
    ValidTokens(toks) &&
    st.chunkPtr <= st.decPtr && chunkBuffer[..st.chunkPtr] == ChunkBytes(toks) &&
    3 * st.linkPtr <= st.decPtr && linkBuffer[..st.linkPtr] == LinkWords(toks) &&
    |toks| == 32 * st.maskPtr + st.maskBitCount && |toks| <= st.decPtr &&
    |done| == 32 * st.maskPtr && |group| == st.maskBitCount < 32 && done + group == Flags(toks) &&
    maskBuffer[..st.maskPtr] == MaskWords(done) && st.mask % Pow2(st.maskBitCount) == Horner(group)
  }

  /** One iteration of the loop of lines 213-268: choose a token, write it, record its flag. */
  method EncodeStep(src: seq<byte>, maskBuffer: array<u32>, linkBuffer: array<nat>, chunkBuffer: array<byte>,
                    st: EncoderState, ghost toks: seq<Token>, ghost done: seq<bool>, ghost group: seq<bool>)
    returns (st': EncoderState, ghost toks': seq<Token>, ghost done': seq<bool>, ghost group': seq<bool>)
    requires st.decPtr < |src|
    requires maskBuffer as object != linkBuffer as object && maskBuffer as object != chunkBuffer as object
    requires linkBuffer as object != chunkBuffer as object
    requires EncoderInv(src, maskBuffer, linkBuffer, chunkBuffer, st, toks, done, group)
    modifies maskBuffer, linkBuffer, chunkBuffer
    ensures EncoderInv(src, maskBuffer, linkBuffer, chunkBuffer, st', toks', done', group')
    ensures st.decPtr < st'.decPtr
  {
    var e, windowPtr := ChooseToken(src, st.decPtr, st.windowPtr, st.windowLen, st.maxCount);
    ParseStepValid(src, st.decPtr, st.windowLen, st.maxCount);
    ParseAdvance(src, toks, st.decPtr, st.windowLen, st.maxCount);
    var linkPtr, chunkPtr := EmitToken(linkBuffer, st.linkPtr, chunkBuffer, st.chunkPtr, e.token, toks);
    FlagsSnoc(toks, e.token);
    ValidTokensSnoc(toks, e.token);
    ghost var links, chunks := linkBuffer[..linkPtr], chunkBuffer[..chunkPtr];
    var maskPtr, mask, maskBitCount;
    maskPtr, mask, maskBitCount, done', group' :=
      PushFlag(maskBuffer, st.maskPtr, st.mask, st.maskBitCount, e.token.Literal?, done, group);
    assert linkBuffer[..linkPtr] == links && chunkBuffer[..chunkPtr] == chunks;
    toks' := toks + [e.token];
    st' := EncoderState(e.next, windowPtr, e.windowLen, e.maxCount, mask, maskBitCount, maskPtr, linkPtr, chunkPtr);
  }

  /**
    The loop of lines 213-268 and the tail flush of lines 270-274: the
    mask, link and chunk buffers hold the encoding of `Tokens(src)`, and no
    write lands outside the buffers the source allocates (lines 192-208).
  */
  method Yay0EncodeBuffers(src: seq<byte>)
    returns (maskBuffer: array<u32>, maskPtr: nat, linkBuffer: array<nat>, linkPtr: nat,
             chunkBuffer: array<byte>, chunkPtr: nat)
    requires |src| < 0x8000_0000
    ensures ValidTokens(Tokens(src))
    ensures maskPtr <= maskBuffer.Length && maskBuffer[..maskPtr] == MaskWords(Flags(Tokens(src)))
    ensures linkPtr <= linkBuffer.Length && linkBuffer[..linkPtr] == LinkWords(Tokens(src))
    ensures chunkPtr <= chunkBuffer.Length && chunkBuffer[..chunkPtr] == ChunkBytes(Tokens(src))
  {
    var n := |src|;
    var maskMaxSize := (n + 32) / 8;
    maskBuffer := new u32[maskMaxSize / 4];
    linkBuffer := new nat[n / 2];
    chunkBuffer := new byte[n];
    var st := EncoderState(0, 0, 0, MAX_COUNT, 0, 0, 0, 0, 0);
    ghost var toks: seq<Token>, done: seq<bool>, group: seq<bool> := [], [], [];
    assert EncoderInv(src, maskBuffer, linkBuffer, chunkBuffer, st, toks, done, group);
    while st.decPtr < n
      invariant EncoderInv(src, maskBuffer, linkBuffer, chunkBuffer, st, toks, done, group)
      decreases n - st.decPtr
    {
      st, toks, done, group := EncodeStep(src, maskBuffer, linkBuffer, chunkBuffer, st, toks, done, group);
    }
    ParseDone(src, toks, st.decPtr, st.windowLen, st.maxCount);
    linkPtr, chunkPtr := st.linkPtr, st.chunkPtr;
    ghost var links, chunks := linkBuffer[..linkPtr], chunkBuffer[..chunkPtr];
    maskPtr := FlushMask(maskBuffer, st.maskPtr, st.mask, st.maskBitCount, done, group);
    assert linkBuffer[..linkPtr] == links && chunkBuffer[..chunkPtr] == chunks;
  }

  /**
    `Yay0::Compress` (lines 187-297): the buffers from the encoder loop,
    then the header and the three section writes as the source issues
    them, each of the last two copying from the mask buffer.
  */
  method Yay0CompressInto(src: seq<byte>) returns (r: Result<seq<byte>>)
    requires |src| < 0x8000_0000
    ensures r == Yay0CompressAsWritten(src)
  {
    var maskBuffer, maskPtr, linkBuffer, linkPtr, chunkBuffer, chunkPtr := Yay0EncodeBuffers(src);
    var maskBytes := WordsBE(maskBuffer[..maskPtr]);
    if 2 * linkPtr > |maskBytes| || chunkPtr > |maskBytes| {
      return Err(Uninitialised);
    }
    r := Ok(Header(|src|, maskPtr, linkPtr) + maskBytes + maskBytes[..2 * linkPtr] + maskBytes[..chunkPtr]);
  }

  // =====================================================================
  // The stream layout
  // =====================================================================

  /** Fewer links than tokens and at most one chunk byte per token. */
  lemma {:induction false} SectionSizes(toks: seq<Token>)
    requires ValidTokens(toks)
    ensures |LinkWords(toks)| <= |toks| && |ChunkBytes(toks)| <= |toks|
  {
    if toks != [] {
      var init := toks[..|toks| - 1];
      assert ValidTokens(init);
      SectionSizes(init);
    }
  }

  /** At least one input byte per token. */
  lemma {:induction false} ParseLength(src: seq<byte>, decPtr: nat, windowLen: nat, maxCount: nat)
    requires windowLen <= decPtr <= |src|
    ensures |Yay0Parse(src, decPtr, windowLen, maxCount)| <= |src| - decPtr
    decreases |src| - decPtr
  {
    if decPtr < |src| {
      var e := ParseStep(src, decPtr, windowLen, maxCount);
      ParseLength(src, e.next, e.windowLen, e.maxCount);
    }
  }

  /**
    The corrected stream is laid out as its header says: the size at
    offset 4, the link section at the offset stored at 8 right after the
    mask words, the chunk section at the offset stored at 12 right after
    the link words, and each section holds its own buffer.
  */
  lemma Yay0CompressLayout(src: seq<byte>)
    requires |src| < 0x4000_0000
    ensures ValidTokens(Tokens(src))
    ensures var r := Yay0Compress(src);
      var toks := Tokens(src);
      var masks := MaskWords(Flags(toks));
      var linkOff := U32BE(r, 8);
      var chunkOff := U32BE(r, 12);
      r[..4] == [0x59, 0x61, 0x79, 0x30] && U32BE(r, 4) == |src| &&
      linkOff == 16 + 4 * |masks| && chunkOff == linkOff + 2 * |LinkWords(toks)| && chunkOff <= |r| &&
      r[16..linkOff] == WordsBE(masks) &&
      r[linkOff..chunkOff] == HalvesBE(LinkWords(toks)) &&
      r[chunkOff..] == ChunkBytes(toks)
  {
    TokensValid(src);
    ParseLength(src, 0, 0, MAX_COUNT);
    var toks := Tokens(src);
    var masks := MaskWords(Flags(toks));
    SectionSizes(toks);
    assert |masks| <= |toks| by {
      assert |Flags(toks)| == |toks|;
    }
    StreamLayout(|src|, masks, LinkWords(toks), ChunkBytes(toks));
  }

  /** The layout of a stream with the given sections, when its offsets do not wrap. */
  lemma StreamLayout(size: nat, masks: seq<u32>, links: seq<nat>, chunks: seq<byte>)
    requires forall i :: 0 <= i < |links| ==> links[i] < 0x1_0000
    requires size < TWO_32 && 16 + 4 * |masks| + 2 * |links| < TWO_32
    ensures var r := Header(size, |masks|, |links|) + WordsBE(masks) + HalvesBE(links) + chunks;
      var linkOff := U32BE(r, 8);
      var chunkOff := U32BE(r, 12);
      r[..4] == [0x59, 0x61, 0x79, 0x30] && U32BE(r, 4) == size &&
      linkOff == 16 + 4 * |masks| && chunkOff == linkOff + 2 * |links| && chunkOff <= |r| &&
      r[16..linkOff] == WordsBE(masks) &&
      r[linkOff..chunkOff] == HalvesBE(links) &&
      r[chunkOff..] == chunks
  {
    StreamHeader(size, masks, links, chunks);
    StreamSections(size, masks, links, chunks);
  }

  /** The header words of such a stream read back. */
  lemma StreamHeader(size: nat, masks: seq<u32>, links: seq<nat>, chunks: seq<byte>)
    requires forall i :: 0 <= i < |links| ==> links[i] < 0x1_0000
    requires size < TWO_32 && 16 + 4 * |masks| + 2 * |links| < TWO_32
    ensures var r := Header(size, |masks|, |links|) + WordsBE(masks) + HalvesBE(links) + chunks;
      r[..4] == [0x59, 0x61, 0x79, 0x30] && U32BE(r, 4) == size &&
      U32BE(r, 8) == 16 + 4 * |masks| && U32BE(r, 12) == 16 + 4 * |masks| + 2 * |links|
  {
    HeaderRead(size, |masks|, |links|);
    HeaderPrefix(Header(size, |masks|, |links|), WordsBE(masks), HalvesBE(links), chunks);
  }

  /** A header whose offsets do not wrap reads back as written. */
  lemma HeaderRead(size: nat, maskPtr: nat, linkPtr: nat)
    requires size < TWO_32 && 16 + 4 * maskPtr + 2 * linkPtr < TWO_32
    ensures Header(size, maskPtr, linkPtr)[..4] == [0x59, 0x61, 0x79, 0x30]
    ensures U32BE(Header(size, maskPtr, linkPtr), 4) == size
    ensures U32BE(Header(size, maskPtr, linkPtr), 8) == 16 + 4 * maskPtr
    ensures U32BE(Header(size, maskPtr, linkPtr), 12) == 16 + 4 * maskPtr + 2 * linkPtr
  {
    var linkOff := 16 + 4 * maskPtr;
    var chunkOff := linkOff + 2 * linkPtr;
    HeaderNoWrap(size, maskPtr, linkPtr);
    HeaderWords([0x59, 0x61, 0x79, 0x30], size, linkOff, chunkOff);
  }

  /** The first 16 bytes of a stream are its header. */
  lemma HeaderPrefix(hd: seq<byte>, m: seq<byte>, l: seq<byte>, c: seq<byte>)
    requires |hd| == 16
    ensures var r := hd + m + l + c;
      r[..4] == hd[..4] && U32BE(r, 4) == U32BE(hd, 4) && U32BE(r, 8) == U32BE(hd, 8) &&
      U32BE(r, 12) == U32BE(hd, 12)
  {
    var r := hd + m + l + c;
    assert r[..16] == hd;
    assert r[..4] == hd[..4];
    U32BEOfPrefix(r, hd, 4);
    U32BEOfPrefix(r, hd, 8);
    U32BEOfPrefix(r, hd, 12);
  }

  /** The sections of such a stream, at the offsets its header holds. */
  lemma StreamSections(size: nat, masks: seq<u32>, links: seq<nat>, chunks: seq<byte>)
    requires forall i :: 0 <= i < |links| ==> links[i] < 0x1_0000
    ensures var r := Header(size, |masks|, |links|) + WordsBE(masks) + HalvesBE(links) + chunks;
      var linkOff, chunkOff := 16 + 4 * |masks|, 16 + 4 * |masks| + 2 * |links|;
      chunkOff <= |r| &&
      r[16..linkOff] == WordsBE(masks) && r[linkOff..chunkOff] == HalvesBE(links) && r[chunkOff..] == chunks
  {
    var hd, m, l := Header(size, |masks|, |links|), WordsBE(masks), HalvesBE(links);
    var r := hd + m + l + chunks;
    var linkOff, chunkOff := 16 + 4 * |masks|, 16 + 4 * |masks| + 2 * |links|;
    assert |hd| == 16 && |hd| + |m| == linkOff && |hd| + |m| + |l| == chunkOff;
    SectionsAt(hd, m, l, chunks);
    assert r[16..linkOff] == m;
    assert r[linkOff..chunkOff] == l;
    assert r[chunkOff..] == chunks;
  }

  /** A header whose offsets do not wrap. */
  lemma HeaderNoWrap(size: nat, maskPtr: nat, linkPtr: nat)
    requires size < TWO_32 && 16 + 4 * maskPtr + 2 * linkPtr < TWO_32
    ensures Header(size, maskPtr, linkPtr) ==
      [0x59, 0x61, 0x79, 0x30] + Be32(size) + Be32(16 + 4 * maskPtr) + Be32(16 + 4 * maskPtr + 2 * linkPtr)
  {
    SmallMod(size);
    SmallMod(16 + 4 * maskPtr);
    SmallMod(16 + 4 * maskPtr + 2 * linkPtr);
  }

  /** The three words of a header read back. */
  lemma HeaderWords(magic: seq<byte>, a: u32, b: u32, c: u32)
    requires |magic| == 4
    ensures var hd := magic + Be32(a) + Be32(b) + Be32(c);
      hd[..4] == magic && U32BE(hd, 4) == a && U32BE(hd, 8) == b && U32BE(hd, 12) == c
  {
    var hd := magic + Be32(a) + Be32(b) + Be32(c);
    assert hd[4..8] == Be32(a) && hd[8..12] == Be32(b) && hd[12..16] == Be32(c);
    U32BEOfSlice(hd, 4);
    U32BEOfSlice(hd, 8);
    U32BEOfSlice(hd, 12);
    U32BEOfBe32(a);
    U32BEOfBe32(b);
    U32BEOfBe32(c);
  }

  /** A word inside a prefix reads the same in the whole stream. */
  lemma U32BEOfPrefix(r: seq<byte>, hd: seq<byte>, i: nat)
    requires |hd| <= |r| && r[..|hd|] == hd && i + 4 <= |hd|
    ensures U32BE(r, i) == U32BE(hd, i)
  {
    assert r[i] == hd[i] && r[i + 1] == hd[i + 1] && r[i + 2] == hd[i + 2] && r[i + 3] == hd[i + 3];
  }

  /** The sections of a concatenation. */
  lemma SectionsAt(hd: seq<byte>, m: seq<byte>, l: seq<byte>, ch: seq<byte>)
    ensures var r := hd + m + l + ch;
      var b, c := |hd| + |m|, |hd| + |m| + |l|;
      r[..|hd|] == hd && r[|hd|..b] == m && r[b..c] == l && r[c..] == ch
  {
  }

  /** A single byte is encoded as one literal. */
  lemma TokensOneByte(b: byte)
    ensures Tokens([b]) == [Literal(b)]
  {
    var e := ParseStep([b], 0, 0, MAX_COUNT);
    assert Search([b], 0, 0, 1, 0) == Candidate(0, 0);
    assert e == Emit(Literal(b), 1, 1, 1);
    assert Yay0Parse([b], 1, 1, 1) == [];
    assert Tokens([b]) == [e.token] + Yay0Parse([b], 1, 1, 1);
  }

  /** The mask word of a single literal: its flag in bit 31. */
  lemma OneFlagMask()
    ensures WordsBE(MaskWords([true])) == [0x80, 0, 0, 0]
  {
    assert Horner([true]) == 1 by {
      assert [true][..0] == [];
    }
    assert MaskWord([true]) == 0x8000_0000 by {
      Pow2Facts();
    }
    assert MaskWords([true]) == [0x8000_0000];
    TopWordBytes();
  }

  /** The bytes of a word with only bit 31 set. */
  lemma TopWordBytes()
    ensures WordsBE([0x8000_0000]) == [0x80, 0, 0, 0]
  {
    var ws: seq<u32> := [0x8000_0000];
    assert ws[..0] == [];
    assert WordsBE(ws) == Be32(0x8000_0000);
    Be32Digits(0x8000_0000, 0x80, 0, 0, 0);
    ByteOfVal(0x80);
    assert Byte(0) == 0;
  }

  /** The buffers for the one-byte input "A": one mask word, no link, the byte itself. */
  lemma OneLiteralBuffers()
    ensures ValidTokens(Tokens([0x41]))
    ensures WordsBE(MaskWords(Flags(Tokens([0x41])))) == [0x80, 0, 0, 0]
    ensures LinkWords(Tokens([0x41])) == [] && ChunkBytes(Tokens([0x41])) == [0x41]
  {
    TokensOneByte(0x41);
    var toks := [Literal(0x41)];
    assert toks[..0] == [];
    assert Flags(toks) == [true];
    OneFlagMask();
  }

  /** The header of a one-byte stream with one mask word and no links. */
  function OneLiteralHeaderBytes(): seq<byte> {
    [0x59, 0x61, 0x79, 0x30, 0, 0, 0, 1, 0, 0, 0, 20, 0, 0, 0, 20]
  }

  /** The header of the one-byte stream: size 1, both sections at offset 20. */
  lemma OneLiteralHeader()
    ensures Header(1, 1, 0) == OneLiteralHeaderBytes()
  {
    assert 1 % TWO_32 == 1 && (0x10 + 4 * 1) % TWO_32 == 20 && (20 + 2 * 0) % TWO_32 == 20;
    SmallWord(1, 1);
    SmallWord(20, 20);
    HeaderLiteral([0, 0, 0, 1], [0, 0, 0, 20]);
  }

  /** The big-endian bytes of a word below 256. */
  lemma SmallWord(x: nat, b: byte)
    requires Val(b) == x
    ensures Be32(x) == [0, 0, 0, b]
  {
    Be32Small(x);
    ValInjective(Byte(x), b);
  }

  /** Assembling the 16 header bytes from their words. */
  lemma HeaderLiteral(size: seq<byte>, off: seq<byte>)
    requires size == [0, 0, 0, 1] && off == [0, 0, 0, 20]
    ensures [0x59, 0x61, 0x79, 0x30] + size + off + off == OneLiteralHeaderBytes()
  {
  }

  /** The corrected stream for the one-byte input "A", which the decoder expands back to "A". */
  lemma Yay0CompressOneLiteral()
    ensures Yay0Compress([0x41]) == Yay0OneLiteral()
    ensures Yay0Decompress(Yay0Compress([0x41])) == Ok([0x41])
  {
    OneLiteralBuffers();
    OneLiteralHeader();
    assert HalvesBE([]) == [];
    assert Yay0OneLiteral() == OneLiteralHeaderBytes() + [0x80, 0, 0, 0] + [] + [0x41];
    Yay0DecompressSeekMissing();
  }

  /** The stream that the encoder as written produces for "A". */
  function OneLiteralAsWritten(): seq<byte> {
    [0x59, 0x61, 0x79, 0x30, 0, 0, 0, 1, 0, 0, 0, 20, 0, 0, 0, 20,
     0x80, 0, 0, 0, 0x80]
  }

  /** The stream it decodes to: the copied mask byte. */
  lemma OneLiteralAsWrittenDecodes()
    ensures Yay0Decompress(OneLiteralAsWritten()) == Ok([0x80])
  {
    var s := OneLiteralAsWritten();
    assert U32BE(s, 4) == 1 && U32BE(s, 8) == 20 && U32BE(s, 12) == 20;
    var st := Yay0State(16, 0, 0, 20, 20, []);
    assert U32BE(s, 16) == 0x8000_0000;
    var ld := Yay0Loaded(s, st);
    assert TopBit(ld.bits);
    assert Yay0Step(s, 1, 1, st) == Ok(ld.(bits := Shl1(ld.bits), bitCount := 31, readOffset := 21, out := [0x80]));
  }

  /**
    As written, the chunk section of the same stream is a copy of the first
    mask byte, 0x80, so the stream decodes to 0x80 instead of "A".
  */
  lemma Yay0CompressReusesMask()
    ensures Yay0CompressAsWritten([0x41]) == Ok(OneLiteralAsWritten())
    ensures Yay0Decompress(Yay0CompressAsWritten([0x41]).value) == Ok([0x80])
  {
    OneLiteralBuffers();
    OneLiteralHeader();
    var m: seq<byte> := [0x80, 0, 0, 0];
    assert m[..0] == [] && m[..1] == [0x80];
    assert OneLiteralAsWritten() == OneLiteralHeaderBytes() + m + m[..0] + m[..1];
    OneLiteralAsWrittenDecodes();
  }
}
