/**
 `context.py`: the passages a model may see, packed greedily under a token budget in rank order,
 and numbered. The tokenizer is a function from text to a number of tokens.
 */
module ContextPacking {
  import opened Options

  /** A matched chunk; its first `prefixChars` characters are borrowed from the chunk before it. */
  datatype Chunk = Chunk(score: real, prefixChars: int, text: string)

  datatype Hit = Hit(source: string, externalKey: string, matchedChunks: seq<Chunk>)

  datatype Passage = Passage(number: nat, hit: Hit, text: string, tokens: nat)

  datatype AssembledContext = AssembledContext(
    passages: seq<Passage>,
    dropped: seq<Hit>,
    tokenBudget: int,
    tokensUsed: nat) {
    /** The citation indices an answer is allowed to use. */
    function ValidIndices(): set<nat> {
      set p | p in passages :: p.number
    }

    /** `passage`: a search for the first passage with that number. */
    method Find(number: int) returns (found: Option<Passage>)
      ensures found.Some? ==> found.value in passages && found.value.number == number
      ensures found.None? ==> number !in ValidIndices()
      ensures IsNumbered(passages) ==>
                found == if 1 <= number <= |passages| then Some(passages[number - 1]) else None
    {
      for k := 0 to |passages|
        invariant forall l :: 0 <= l < k ==> passages[l].number != number
      {
        if passages[k].number == number {
          return Some(passages[k]);
        }
      }
      found := None;
    }
  }

  /** Only a budget that is not positive is an error. */
  datatype Assembly = Assembled(context: AssembledContext) | BadBudget

  // ---------------------------------------------------------------------------------------
  // _best_text
  // ---------------------------------------------------------------------------------------

  /** Python's `max` by score: the first chunk that no other chunk beats. */
  function Best(chunks: seq<Chunk>): (b: nat)
    requires chunks != []
    ensures b < |chunks|
    ensures forall k :: 0 <= k < |chunks| ==> chunks[k].score <= chunks[b].score
    ensures forall k :: 0 <= k < b ==> chunks[k].score < chunks[b].score
  {
    if |chunks| == 1 then 0
    else
      var b := Best(chunks[..|chunks| - 1]);
      if chunks[|chunks| - 1].score > chunks[b].score then |chunks| - 1 else b
  }

  /** Python's `text[n:]`, which counts a negative `n` from the end and clamps both ways. */
  function SliceFrom(text: string, n: int): string {
    if n < 0 then (if |text| + n < 0 then text else text[|text| + n..])
    else if n > |text| then "" else text[n..]
  }

  /** What `str.strip` removes. */
  predicate IsSpace(c: char) {
    || '\U{9}' <= c <= '\U{d}' || '\U{1c}' <= c <= ' ' || c == '\U{85}' || c == '\U{a0}' || c == '\U{1680}'
    || '\U{2000}' <= c <= '\U{200a}' || c == '\U{2028}'
    || c == '\U{2029}' || c == '\U{202f}' || c == '\U{205f}' || c == '\U{3000}'
  }

  predicate AllSpace(s: string) {
    forall k :: 0 <= k < |s| ==> IsSpace(s[k])
  }

  /** `r` is `s` without white space at either end: the slice from `i` to `j`. */
  predicate StripsTo(s: string, r: string, i: int, j: int) {
    && 0 <= i <= j <= |s| && r == s[i..j] && AllSpace(s[..i]) && AllSpace(s[j..])
    && (r != "" ==> !IsSpace(r[0]) && !IsSpace(r[|r| - 1]))
  }

  /** Python's `str.strip`. */
  function Strip(s: string): string {
    if s == "" then ""
    else if IsSpace(s[0]) then Strip(s[1..])
    else if IsSpace(s[|s| - 1]) then Strip(s[..|s| - 1])
    else s
  }

  /** Nothing is stripped but white space, and all of it is, at both ends. */
  lemma {:induction false} StripStrips(s: string)
    ensures exists i, j :: StripsTo(s, Strip(s), i, j)
  {
    if s == "" {
      assert Strip(s) == "" && StripsTo(s, "", 0, 0);
    } else if IsSpace(s[0]) {
      StripStrips(s[1..]);
      StripFront(s, Strip(s[1..]));
      assert Strip(s) == Strip(s[1..]);
    } else if IsSpace(s[|s| - 1]) {
      StripStrips(s[..|s| - 1]);
      StripBack(s, s[..|s| - 1], Strip(s[..|s| - 1]));
      assert Strip(s) == Strip(s[..|s| - 1]);
    } else {
      assert s[..0] == "" && s[|s|..] == "" && s[0..|s|] == s;
      assert StripsTo(s, Strip(s), 0, |s|);
    }
  }

  lemma StripFront(s: string, r: string)
    requires s != "" && IsSpace(s[0]) && exists i, j :: StripsTo(s[1..], r, i, j)
    ensures exists i, j :: StripsTo(s, r, i, j)
  {
    var i, j :| StripsTo(s[1..], r, i, j);
    assert s[..i + 1] == [s[0]] + s[1..][..i] && s[j + 1..] == s[1..][j..];
    assert StripsTo(s, r, i + 1, j + 1);
  }

  lemma StripBack(s: string, t: string, r: string)
    requires s != "" && IsSpace(s[|s| - 1]) && t == s[..|s| - 1] && exists i, j :: StripsTo(t, r, i, j)
    ensures exists i, j :: StripsTo(s, r, i, j)
  {
    var i, j :| StripsTo(t, r, i, j);
    assert s[..i] == t[..i] && s[j..] == t[j..] + [s[|s| - 1]];
    assert StripsTo(s, r, i, j);
  }

  function BestText(hit: Hit): string {
    if hit.matchedChunks == [] then ""
    else
      var best := hit.matchedChunks[Best(hit.matchedChunks)];
      Strip(SliceFrom(best.text, best.prefixChars))
  }

  /** The characters of Unicode that Python counts as white space. */
  predicate IsWhite(c: char) {
    c as int in {0x9, 0xA, 0xB, 0xC, 0xD, 0x1C, 0x1D, 0x1E, 0x1F, 0x20, 0x85, 0xA0, 0x1680, 0x2000, 0x2001, 0x2002,
                 0x2003, 0x2004, 0x2005, 0x2006, 0x2007, 0x2008, 0x2009, 0x200A, 0x2028, 0x2029, 0x202F, 0x205F, 0x3000}
  }

  lemma SpaceIsWhite(c: char)
    ensures IsSpace(c) <==> IsWhite(c)
  {
  }

  /** Where a text begins that is read from position `n` on, counted from the end if negative. */
  function Start(text: string, n: int): nat {
    if 0 <= n <= |text| then n else if n > |text| then |text| else if -n <= |text| then |text| + n else 0
  }

  /** The text from `from` on, less the white space at its ends, is what stands from `i` to `j`. */
  predicate IsTrimmed(text: string, from: nat, i: nat, j: nat) {
    && from <= i <= j <= |text|
    && (forall k :: from <= k < |text| && (k < i || j <= k) ==> IsWhite(text[k]))
    && (i < j ==> !IsWhite(text[i]) && !IsWhite(text[j - 1]))
  }

  /**
   A hit's passage is the text of its best chunk, the first of those that no other outscores, without the
   borrowed characters and without white space at the ends.
   */
  lemma PassageText(hit: Hit) returns (b: nat, i: nat, j: nat)
    requires hit.matchedChunks != []
    ensures b < |hit.matchedChunks|
    ensures var chunks := hit.matchedChunks;
            && (forall k :: 0 <= k < |chunks| ==> chunks[k].score <= chunks[b].score)
            && (forall k :: 0 <= k < b ==> chunks[k].score < chunks[b].score)
            && IsTrimmed(chunks[b].text, Start(chunks[b].text, chunks[b].prefixChars), i, j)
            && BestText(hit) == chunks[b].text[i..j]
  {
    b := Best(hit.matchedChunks);
    i, j := TrimmedSlice(hit.matchedChunks[b].text, hit.matchedChunks[b].prefixChars);
  }

  lemma TrimmedSlice(text: string, n: int) returns (i: nat, j: nat)
    ensures IsTrimmed(text, Start(text, n), i, j) && Strip(SliceFrom(text, n)) == text[i..j]
  {
    var p, q := Trimmed(SliceFrom(text, n));
    i, j := Start(text, n) + p, Start(text, n) + q;
    SliceStarts(text, n);
    TrimmedFrom(text, Start(text, n), SliceFrom(text, n), p, q);
  }

  lemma TrimmedFrom(text: string, from: nat, s: string, p: nat, q: nat)
    requires from <= |text| && s == text[from..] && IsTrimmed(s, 0, p, q)
    ensures IsTrimmed(text, from, from + p, from + q) && s[p..q] == text[from + p..from + q]
  {
    LaterTrimmed(text, from, p, q);
    SliceOfSlice(text, from, p, q);
  }

  lemma SliceOfSlice(text: string, from: nat, p: nat, q: nat)
    requires from <= |text| && p <= q <= |text| - from
    ensures text[from..][p..q] == text[from + p..from + q]
  {
  }

  lemma LaterTrimmed(text: string, from: nat, p: nat, q: nat)
    requires from <= |text| && IsTrimmed(text[from..], 0, p, q)
    ensures IsTrimmed(text, from, from + p, from + q)
  {
    forall k | from <= k < |text| && (k < from + p || from + q <= k) ensures IsWhite(text[k]) {
      assert text[k] == text[from..][k - from];
    }
  }

  lemma SliceStarts(text: string, n: int)
    ensures Start(text, n) <= |text| && SliceFrom(text, n) == text[Start(text, n)..]
  {
  }

  lemma Trimmed(s: string) returns (p: nat, q: nat)
    ensures IsTrimmed(s, 0, p, q) && Strip(s) == s[p..q]
  {
    StripStrips(s);
    var i, j :| StripsTo(s, Strip(s), i, j);
    p, q := i, j;
    forall k: nat | k < |s| && (k < p || q <= k) ensures IsWhite(s[k]) {
      OutsideIsSpace(s, Strip(s), p, q, k);
      SpaceIsWhite(s[k]);
    }
    if p < q {
      SpaceIsWhite(s[p]);
      SpaceIsWhite(s[q - 1]);
    }
  }

  lemma OutsideIsSpace(s: string, r: string, p: nat, q: nat, k: nat)
    requires StripsTo(s, r, p, q) && k < |s| && (k < p || q <= k)
    ensures IsSpace(s[k])
  {
    if k < p {
      assert s[k] == s[..p][k];
    } else {
      assert s[k] == s[q..][k - q];
    }
  }

  /** A hit without chunks has no text. */
  lemma NoChunksNoText(hit: Hit)
    ensures hit.matchedChunks == [] ==> BestText(hit) == ""
  {
  }

  // ---------------------------------------------------------------------------------------
  // Choosing
  // ---------------------------------------------------------------------------------------

  type Counter = string -> nat

  /** A way of keeping some of the hits. */
  type Choice = seq<bool>

  predicate Keepable(hit: Hit) {
    BestText(hit) != ""
  }

  function Cost(hit: Hit, count: Counter): nat {
    count(BestText(hit))
  }

  /** The tokens of the kept hits among the first `n`. */
  function Spent(hits: seq<Hit>, count: Counter, kept: Choice, n: nat): nat
    requires n <= |kept| <= |hits|
  {
    if n == 0 then 0 else Spent(hits, count, kept, n - 1) + if kept[n - 1] then Cost(hits[n - 1], count) else 0
  }

  /** Keeps no empty hit and stays within the budget. */
  predicate Fits(hits: seq<Hit>, count: Counter, budget: int, kept: Choice) {
    && |kept| == |hits|
    && (forall k :: 0 <= k < |hits| && kept[k] ==> Keepable(hits[k]))
    && Spent(hits, count, kept, |kept|) <= budget
  }

  /** What the loop keeps of the first `n` hits. */
  function Greedy(hits: seq<Hit>, count: Counter, budget: int, n: nat): (kept: Choice)
    requires n <= |hits|
    ensures |kept| == n
  {
    if n == 0 then []
    else
      var before := Greedy(hits, count, budget, n - 1);
      before + [Keepable(hits[n - 1]) && Spent(hits, count, before, n - 1) + Cost(hits[n - 1], count) <= budget]
  }

  function KeptHits(hits: seq<Hit>, kept: Choice, wanted: bool, n: nat): seq<Hit>
    requires n <= |kept| <= |hits|
  {
    if n == 0 then []
    else KeptHits(hits, kept, wanted, n - 1) + if kept[n - 1] == wanted then [hits[n - 1]] else []
  }

  function Numbered(hits: seq<Hit>, count: Counter): (passages: seq<Passage>)
    ensures |passages| == |hits|
    ensures forall k :: 0 <= k < |hits| ==>
              passages[k] == Passage(k + 1, hits[k], BestText(hits[k]), Cost(hits[k], count))
  {
    if hits == [] then []
    else
      var last := |hits| - 1;
      Numbered(hits[..last], count) + [Passage(last + 1, hits[last], BestText(hits[last]), Cost(hits[last], count))]
  }

  function Packed(hits: seq<Hit>, count: Counter, budget: int): AssembledContext {
    var kept := Greedy(hits, count, budget, |hits|);
    AssembledContext(Numbered(KeptHits(hits, kept, true, |hits|), count), KeptHits(hits, kept, false, |hits|),
                     budget, Spent(hits, count, kept, |hits|))
  }

  /** `assemble_context`. */
  method AssembleContext(hits: seq<Hit>, count: Counter, budget: int) returns (r: Assembly)
    ensures r == if budget <= 0 then BadBudget else Assembled(Packed(hits, count, budget))
  {
    if budget <= 0 {
      return BadBudget;
    }
    var passages: seq<Passage>, dropped: seq<Hit>, used: nat := [], [], 0;
    for i := 0 to |hits|
      invariant IsPacked(hits, count, budget, i, used, passages, dropped)
    {
      var text := BestText(hits[i]);
      PackOne(hits, count, budget, i, used, passages, dropped);
      if text == "" {
        dropped := dropped + [hits[i]];
        continue;
      }
      var tokens := count(text);
      if used + tokens > budget {
        dropped := dropped + [hits[i]];
        continue;
      }
      used := used + tokens;
      passages := passages + [Passage(|passages| + 1, hits[i], text, tokens)];
    }
    r := Assembled(AssembledContext(passages, dropped, budget, used));
  }

  lemma {:induction false} SamePrefix(hits: seq<Hit>, count: Counter, kept: Choice, kept': Choice, n: nat)
    requires n <= |kept| <= |hits| && n <= |kept'| <= |hits| && kept[..n] == kept'[..n]
    ensures Spent(hits, count, kept, n) == Spent(hits, count, kept', n)
    ensures forall wanted :: KeptHits(hits, kept, wanted, n) == KeptHits(hits, kept', wanted, n)
  {
    if n > 0 {
      assert kept[..n][n - 1] == kept'[..n][n - 1];
      assert kept[..n - 1] == kept[..n][..n - 1] && kept'[..n - 1] == kept'[..n][..n - 1];
      SamePrefix(hits, count, kept, kept', n - 1);
    }
  }

  /** One iteration of the loop. */
  lemma OneMoreHit(hits: seq<Hit>, count: Counter, budget: int, i: nat)
    requires i < |hits|
    ensures var before, after := Greedy(hits, count, budget, i), Greedy(hits, count, budget, i + 1);
            var keeps := Keepable(hits[i]) && Spent(hits, count, before, i) + Cost(hits[i], count) <= budget;
            && Spent(hits, count, after, i + 1)
               == Spent(hits, count, before, i) + (if keeps then Cost(hits[i], count) else 0)
            && KeptHits(hits, after, true, i + 1) == KeptHits(hits, before, true, i) + (if keeps then [hits[i]] else [])
            && KeptHits(hits, after, false, i + 1)
               == KeptHits(hits, before, false, i) + (if keeps then [] else [hits[i]])
  {
    SamePrefix(hits, count, Greedy(hits, count, budget, i + 1), Greedy(hits, count, budget, i), i);
  }

  /** The loop's variables after the first `n` hits. */
  predicate IsPacked(hits: seq<Hit>, count: Counter, budget: int, n: nat, used: nat, passages: seq<Passage>,
        dropped: seq<Hit>)
    requires n <= |hits|
  {
    var kept := Greedy(hits, count, budget, n);
    && used == Spent(hits, count, kept, n) && dropped == KeptHits(hits, kept, false, n)
    && passages == Numbered(KeptHits(hits, kept, true, n), count)
  }

  lemma PackOne(hits: seq<Hit>, count: Counter, budget: int, n: nat, used: nat, passages: seq<Passage>,
        dropped: seq<Hit>)
    requires n < |hits| && IsPacked(hits, count, budget, n, used, passages, dropped)
    ensures var h, text, tokens := hits[n], BestText(hits[n]), count(BestText(hits[n]));
            if text == "" || used + tokens > budget then
              IsPacked(hits, count, budget, n + 1, used, passages, dropped + [h])
            else
              IsPacked(hits, count, budget, n + 1, used + tokens,
                       passages + [Passage(|passages| + 1, h, text, tokens)], dropped)
  {
    var kept := KeptHits(hits, Greedy(hits, count, budget, n), true, n);
    OneMoreHit(hits, count, budget, n);
    assert (kept + [hits[n]])[..|kept|] == kept;
  }

  // ---------------------------------------------------------------------------------------
  // What the choice is
  // ---------------------------------------------------------------------------------------

  lemma {:induction false} GreedyPrefix(hits: seq<Hit>, count: Counter, budget: int, m: nat, n: nat)
    requires m <= n <= |hits|
    ensures Greedy(hits, count, budget, n)[..m] == Greedy(hits, count, budget, m)
  {
    if m < n {
      GreedyPrefix(hits, count, budget, m, n - 1);
      assert Greedy(hits, count, budget, n)[..m] == Greedy(hits, count, budget, n - 1)[..m];
    } else {
      assert Greedy(hits, count, budget, n)[..n] == Greedy(hits, count, budget, n);
    }
  }

  /** Whether a hit is kept depends on what was spent before it and on nothing after it. */
  lemma {:induction false} GreedyAt(hits: seq<Hit>, count: Counter, budget: int, n: nat, k: nat)
    requires k < n <= |hits|
    ensures var g := Greedy(hits, count, budget, n);
            g[k] <==> Keepable(hits[k]) && Spent(hits, count, g, k) + Cost(hits[k], count) <= budget
  {
    var g := Greedy(hits, count, budget, n);
    assert g[k] == Greedy(hits, count, budget, k + 1)[k] by { GreedyPrefix(hits, count, budget, k + 1, n); }
    SpentBefore(hits, count, budget, n, k);
  }

  lemma SpentBefore(hits: seq<Hit>, count: Counter, budget: int, n: nat, k: nat)
    requires k <= n <= |hits|
    ensures Spent(hits, count, Greedy(hits, count, budget, n), k) == Spent(hits, count, Greedy(hits, count, budget, k), k)
  {
    var g, h := Greedy(hits, count, budget, n), Greedy(hits, count, budget, k);
    GreedyPrefix(hits, count, budget, k, n);
    assert h[..k] == h;
    SamePrefix(hits, count, g, h, k);
  }

  lemma {:induction false} SpendingGrows(hits: seq<Hit>, count: Counter, kept: Choice, m: nat, n: nat)
    requires m <= n <= |kept| <= |hits|
    ensures Spent(hits, count, kept, m) <= Spent(hits, count, kept, n)
  {
    if m < n {
      SpendingGrows(hits, count, kept, m, n - 1);
    }
  }

  lemma {:induction false} GreedyFits(hits: seq<Hit>, count: Counter, budget: int, n: nat)
    requires n <= |hits| && budget >= 0
    ensures Spent(hits, count, Greedy(hits, count, budget, n), n) <= budget
    ensures n == |hits| ==> Fits(hits, count, budget, Greedy(hits, count, budget, n))
  {
    if n > 0 {
      GreedyFits(hits, count, budget, n - 1);
      OneMoreHit(hits, count, budget, n - 1);
    }
    forall k | 0 <= k < n && Greedy(hits, count, budget, n)[k] ensures Keepable(hits[k]) {
      GreedyAt(hits, count, budget, n, k);
    }
  }

  /** `g` beats `c` if, at the first rank where they differ, `g` has the hit. */
  predicate Beats(g: Choice, c: Choice) {
    forall k :: 0 <= k < |g| && k < |c| && g[k] != c[k] && g[..k] == c[..k] ==> g[k]
  }

  lemma GreedyBeats(hits: seq<Hit>, count: Counter, budget: int, c: Choice)
    requires Fits(hits, count, budget, c)
    ensures Beats(Greedy(hits, count, budget, |hits|), c)
  {
    var g := Greedy(hits, count, budget, |hits|);
    forall k | 0 <= k < |hits| && g[k] != c[k] && g[..k] == c[..k] ensures g[k] {
      if c[k] {
        GreedyAt(hits, count, budget, |hits|, k);
        SamePrefix(hits, count, g, c, k);
        SpendingGrows(hits, count, c, k + 1, |c|);
      }
    }
  }

  lemma {:induction false} FirstDifference(g: Choice, c: Choice) returns (k: nat)
    requires |g| == |c| && g != c
    ensures k < |g| && g[k] != c[k] && g[..k] == c[..k]
  {
    if g[0] != c[0] {
      k := 0;
    } else {
      assert g == [g[0]] + g[1..] && c == [c[0]] + c[1..];
      var l := FirstDifference(g[1..], c[1..]);
      k := l + 1;
      assert g[..k] == [g[0]] + g[1..][..l] && c[..k] == [c[0]] + c[1..][..l];
    }
  }

  /**
   Lexicographic optimality, as a characterisation: a choice is the one the loop makes if and only
   if it fits and beats every choice that fits.
   */
  lemma GreedyIffOptimal(hits: seq<Hit>, count: Counter, budget: int, g: Choice)
    requires budget >= 0
    ensures g == Greedy(hits, count, budget, |hits|)
            <==> Fits(hits, count, budget, g) && forall c :: Fits(hits, count, budget, c) ==> Beats(g, c)
  {
    var greedy := Greedy(hits, count, budget, |hits|);
    GreedyFits(hits, count, budget, |hits|);
    forall c | Fits(hits, count, budget, c) ensures Beats(greedy, c) {
      GreedyBeats(hits, count, budget, c);
    }
    if Fits(hits, count, budget, g) && (forall c :: Fits(hits, count, budget, c) ==> Beats(g, c)) && g != greedy {
      assert Beats(g, greedy) && Beats(greedy, g);
      var k := FirstDifference(g, greedy);
    }
  }

  /** Packing fewer of the hits gives a prefix of the passages, and of the dropped hits. */
  lemma PackingAPrefix(hits: seq<Hit>, count: Counter, budget: int, m: nat)
    requires m <= |hits|
    ensures Packed(hits[..m], count, budget).passages <= Packed(hits, count, budget).passages
    ensures Packed(hits[..m], count, budget).dropped <= Packed(hits, count, budget).dropped
  {
    var g, h := Greedy(hits, count, budget, |hits|), Greedy(hits[..m], count, budget, m);
    GreedyOfPrefix(hits, count, budget, m, m);
    GreedyPrefix(hits, count, budget, m, |hits|);
    forall wanted ensures KeptHits(hits[..m], h, wanted, m) <= KeptHits(hits, g, wanted, |hits|) {
      SamePrefix(hits, count, g, h, m);
      KeptOfPrefix(hits, h, wanted, m, m);
      KeptGrows(hits, g, wanted, m, |hits|);
    }
  }

  lemma {:induction false} GreedyOfPrefix(hits: seq<Hit>, count: Counter, budget: int, m: nat, n: nat)
    requires n <= m <= |hits|
    ensures Greedy(hits[..m], count, budget, n) == Greedy(hits, count, budget, n)
  {
    if n > 0 {
      GreedyOfPrefix(hits, count, budget, m, n - 1);
      SpentOfPrefix(hits, count, Greedy(hits, count, budget, n - 1), m, n - 1);
    }
  }

  lemma {:induction false} SpentOfPrefix(hits: seq<Hit>, count: Counter, kept: Choice, m: nat, n: nat)
    requires n <= |kept| <= m <= |hits|
    ensures Spent(hits[..m], count, kept, n) == Spent(hits, count, kept, n)
  {
    if n > 0 {
      SpentOfPrefix(hits, count, kept, m, n - 1);
    }
  }

  lemma {:induction false} KeptOfPrefix(hits: seq<Hit>, kept: Choice, wanted: bool, m: nat, n: nat)
    requires n <= |kept| <= m <= |hits|
    ensures KeptHits(hits[..m], kept, wanted, n) == KeptHits(hits, kept, wanted, n)
  {
    if n > 0 {
      KeptOfPrefix(hits, kept, wanted, m, n - 1);
    }
  }

  lemma {:induction false} KeptGrows(hits: seq<Hit>, kept: Choice, wanted: bool, m: nat, n: nat)
    requires m <= n <= |kept| <= |hits|
    ensures KeptHits(hits, kept, wanted, m) <= KeptHits(hits, kept, wanted, n)
  {
    if m < n {
      KeptGrows(hits, kept, wanted, m, n - 1);
    }
  }

  // ---------------------------------------------------------------------------------------
  // Accounting
  // ---------------------------------------------------------------------------------------

  predicate IsNumbered(passages: seq<Passage>) {
    forall k :: 0 <= k < |passages| ==> passages[k].number == k + 1
  }

  function Tokens(passages: seq<Passage>): nat {
    if passages == [] then 0 else Tokens(passages[..|passages| - 1]) + passages[|passages| - 1].tokens
  }

  function HitsOf(passages: seq<Passage>): seq<Hit> {
    seq(|passages|, k requires 0 <= k < |passages| => passages[k].hit)
  }

  /** `xs` and `ys`, each in order, make up `all`. */
  predicate Interleaves(all: seq<Hit>, xs: seq<Hit>, ys: seq<Hit>)
    decreases |all|
  {
    if all == [] then xs == [] && ys == []
    else
      var n := |all| - 1;
      || (xs != [] && xs[|xs| - 1] == all[n] && Interleaves(all[..n], xs[..|xs| - 1], ys))
      || (ys != [] && ys[|ys| - 1] == all[n] && Interleaves(all[..n], xs, ys[..|ys| - 1]))
  }

  lemma {:induction false} KeptInterleaves(hits: seq<Hit>, kept: Choice, n: nat)
    requires n <= |kept| <= |hits|
    ensures Interleaves(hits[..n], KeptHits(hits, kept, true, n), KeptHits(hits, kept, false, n))
  {
    if n > 0 {
      KeptInterleaves(hits, kept, n - 1);
      assert hits[..n][..n - 1] == hits[..n - 1];
      var xs, ys := KeptHits(hits, kept, true, n - 1), KeptHits(hits, kept, false, n - 1);
      assert (xs + [hits[n - 1]])[..|xs|] == xs && (ys + [hits[n - 1]])[..|ys|] == ys;
      assert xs + [] == xs && ys + [] == ys;
    }
  }

  lemma {:induction false} TokensAreSpent(hits: seq<Hit>, count: Counter, kept: Choice, n: nat)
    requires n <= |kept| <= |hits|
    ensures Tokens(Numbered(KeptHits(hits, kept, true, n), count)) == Spent(hits, count, kept, n)
  {
    if n > 0 {
      TokensAreSpent(hits, count, kept, n - 1);
      var before, after := Numbered(KeptHits(hits, kept, true, n - 1), count), Numbered(KeptHits(hits, kept, true, n),
        count);
      if kept[n - 1] {
        assert after[..|after| - 1] == before;
      } else {
        assert after == before;
      }
    }
  }

  /**
   Packing accounts for every hit: each is a passage or dropped, both in rank order; the tokens used
   are the passages' sum and within the budget; the valid indices are 1 to the number of passages.
   */
  lemma PackingAccounts(hits: seq<Hit>, count: Counter, budget: int)
    requires budget > 0
    ensures var c := Packed(hits, count, budget);
            && Interleaves(hits, HitsOf(c.passages), c.dropped)
            && c.tokensUsed == Tokens(c.passages) <= budget && c.tokenBudget == budget
            && IsNumbered(c.passages) && (forall n :: n in c.ValidIndices() <==> 1 <= n <= |c.passages|)
            && (forall p :: p in c.passages ==> p.text == BestText(p.hit) != "" && p.tokens == count(p.text))
  {
    var kept := Greedy(hits, count, budget, |hits|);
    var c := Packed(hits, count, budget);
    KeptInterleaves(hits, kept, |hits|);
    assert hits[..|hits|] == hits;
    assert HitsOf(c.passages) == KeptHits(hits, kept, true, |hits|);
    TokensAreSpent(hits, count, kept, |hits|);
    GreedyFits(hits, count, budget, |hits|);
    forall n ensures n in c.ValidIndices() <==> 1 <= n <= |c.passages| {
      if 1 <= n <= |c.passages| {
        assert c.passages[n - 1] in c.passages && c.passages[n - 1].number == n;
      }
    }
    forall p | p in c.passages ensures p.text == BestText(p.hit) != "" && p.tokens == count(p.text) {
      KeptIsKeepable(hits, kept, |hits|, p.hit);
    }
  }

  lemma {:induction false} KeptIsKeepable(hits: seq<Hit>, kept: Choice, n: nat, hit: Hit)
    requires n <= |kept| <= |hits| && hit in KeptHits(hits, kept, true, n)
    requires forall k :: 0 <= k < n && kept[k] ==> Keepable(hits[k])
    ensures Keepable(hit)
  {
    if hit in KeptHits(hits, kept, true, n - 1) {
      KeptIsKeepable(hits, kept, n - 1, hit);
    }
  }

  /** No dropped hit with text would have fitted in what was left of the budget. */
  lemma NothingDroppedWouldFit(hits: seq<Hit>, count: Counter, budget: int, hit: Hit)
    requires hit in Packed(hits, count, budget).dropped && BestText(hit) != ""
    ensures Packed(hits, count, budget).tokensUsed + count(BestText(hit)) > budget
  {
    var g := Greedy(hits, count, budget, |hits|);
    var k := DroppedAt(hits, g, |hits|, hit);
    GreedyAt(hits, count, budget, |hits|, k);
    SpendingGrows(hits, count, g, k, |hits|);
  }

  lemma {:induction false} DroppedAt(hits: seq<Hit>, kept: Choice, n: nat, hit: Hit) returns (k: nat)
    requires n <= |kept| <= |hits| && hit in KeptHits(hits, kept, false, n)
    ensures k < n && !kept[k] && hits[k] == hit
  {
    if hit in KeptHits(hits, kept, false, n - 1) {
      k := DroppedAt(hits, kept, n - 1, hit);
    } else {
      k := n - 1;
    }
  }
}
