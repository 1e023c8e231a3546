/**
 * Sentence splitting and greedy chunk packing (modules/file_handler.py,
 * `split_chunks`).
 *
 * The tokenizer is a parameter `count: string -> nat` standing for
 * `count_tokens`. The regular-expression split at the head of `split_chunks`
 * is modelled as a function over the text; the packing loop is a method.
 */
module FileHandler {

  /** `CHUNK_TOKEN_SIZE`, the default `max_tokens`. */
  const ChunkTokenSize: int := 500

  // ---------------------------------------------------------------------------
  // Sentence split: re.split(r"(?<=[.!?]) +", text)
  // ---------------------------------------------------------------------------

  predicate IsTerminal(c: char) {
    c == '.' || c == '!' || c == '?'
  }

  /** The pattern matches at `i`: a space right after `.`, `!` or `?`. */
  predicate BreakAt(t: string, i: int) {
    0 < i < |t| && IsTerminal(t[i - 1]) && t[i] == ' '
  }

  /** The first match at or after `i`, or `|t|` when there is none. */
  function FindBreak(t: string, i: nat): (b: nat)
    requires i <= |t|
    ensures i <= b <= |t|
    ensures b < |t| ==> BreakAt(t, b)
    ensures forall k :: i <= k < b ==> !BreakAt(t, k)
    decreases |t| - i
  {
    if i == |t| then i
    else if BreakAt(t, i) then i
    else FindBreak(t, i + 1)
  }

  /** The end of the run of spaces starting at `i` (` +` is greedy). */
  function SpaceRun(t: string, i: nat): (j: nat)
    requires i <= |t|
    ensures i <= j <= |t|
    ensures forall k :: i <= k < j ==> t[k] == ' '
    ensures j == |t| || t[j] != ' '
    decreases |t| - i
  {
    if i < |t| && t[i] == ' ' then SpaceRun(t, i + 1) else i
  }

  function Spaces(n: nat): (s: string)
    ensures |s| == n && forall k :: 0 <= k < n ==> s[k] == ' '
  {
    seq(n, _ => ' ')
  }

  /** One piece of the split: a sentence and the number of spaces removed after it. */
  datatype Cut = Cut(sentence: string, gap: nat)

  /** The split, keeping the length of every separator the split removes. */
  function Cuts(t: string): (cs: seq<Cut>)
    ensures |cs| >= 1
    decreases |t|
  {
    var b := FindBreak(t, 0);
    if b == |t| then [Cut(t, 0)]
    else
      var e := SpaceRun(t, b);
      [Cut(t[..b], e - b)] + Cuts(t[e..])
  }

  /** `re.split(r"(?<=[.!?]) +", text)`. */
  function SplitSentences(t: string): (sentences: seq<string>)
    ensures |sentences| == |Cuts(t)|
    ensures forall k :: 0 <= k < |sentences| ==> sentences[k] == Cuts(t)[k].sentence
  {
    var cs := Cuts(t);
    seq(|cs|, k requires 0 <= k < |cs| => cs[k].sentence)
  }

  /** Puts the pieces back together, separators included. */
  function Glue(cs: seq<Cut>): string {
    if cs == [] then "" else cs[0].sentence + Spaces(cs[0].gap) + Glue(cs[1..])
  }

  /**
   * The shape every split has: each sentence but the last ends with `.`, `!`
   * or `?` and is followed by at least one removed space, the next sentence
   * does not start with a space (the whole run was removed), the last
   * sentence is followed by nothing, and no sentence contains a match.
   */
  predicate WellCut(cs: seq<Cut>) {
    && |cs| >= 1
    && cs[|cs| - 1].gap == 0
    && (forall k :: 0 <= k < |cs| - 1 ==>
          cs[k].sentence != [] && IsTerminal(cs[k].sentence[|cs[k].sentence| - 1]) && cs[k].gap >= 1)
    && (forall k :: 0 < k < |cs| ==> cs[k].sentence == [] || cs[k].sentence[0] != ' ')
    && (forall k, i :: 0 <= k < |cs| && 0 <= i < |cs[k].sentence| ==> !BreakAt(cs[k].sentence, i))
  }

  /** Nothing of the text is lost: sentences and separators make it up again. */
  lemma {:induction false} CutsGlue(t: string)
    ensures Glue(Cuts(t)) == t
    decreases |t|
  {
    var b := FindBreak(t, 0);
    if b < |t| {
      var e := SpaceRun(t, b);
      CutsGlue(t[e..]);
      assert t[b..e] == Spaces(e - b);
      assert t == t[..b] + t[b..e] + t[e..];
    }
  }

  /** A match inside the prefix `t[..n]` is a match of `t`. */
  lemma BreakInPrefix(t: string, n: nat, i: int)
    requires n <= |t|
    ensures BreakAt(t[..n], i) ==> BreakAt(t, i)
  {
  }

  /** The split always has the shape of `WellCut`. */
  lemma {:induction false} CutsWellCut(t: string)
    ensures WellCut(Cuts(t))
    decreases |t|
  {
    var b := FindBreak(t, 0);
    if b == |t| {
      assert Cuts(t) == [Cut(t, 0)];
    } else {
      var e := SpaceRun(t, b);
      CutsWellCut(t[e..]);
      FirstCutWellCut(t, b, e);
    }
  }

  /** A first separator in front of a well-shaped split of the rest gives a well-shaped split. */
  lemma FirstCutWellCut(t: string, b: nat, e: nat)
    requires b == FindBreak(t, 0) && b < |t| && e == SpaceRun(t, b)
    requires WellCut(Cuts(t[e..]))
    ensures WellCut(Cuts(t))
  {
    var rest := Cuts(t[e..]);
    FirstPiece(t, b, e);
    RestStart(t, e);
    CutsFirst(t, b, e);
    WellCutCons(Cut(t[..b], e - b), rest);
  }

  /** The split is the text before the first match, then the split of the rest. */
  lemma CutsFirst(t: string, b: nat, e: nat)
    requires b == FindBreak(t, 0) && b < |t| && e == SpaceRun(t, b)
    ensures Cuts(t) == [Cut(t[..b], e - b)] + Cuts(t[e..])
  {
  }

  /** The text before the first match ends in a terminal, holds no match, and spaces follow it. */
  lemma FirstPiece(t: string, b: nat, e: nat)
    requires b == FindBreak(t, 0) && b < |t| && e == SpaceRun(t, b)
    ensures t[..b] != [] && IsTerminal(t[..b][b - 1]) && e - b >= 1
    ensures forall i :: !BreakAt(t[..b], i)
  {
    assert t[..b][b - 1] == t[b - 1];
    forall i ensures !BreakAt(t[..b], i) {
      BreakInPrefix(t, b, i);
    }
  }

  /** The split of the text after a run of spaces does not start with a space. */
  lemma RestStart(t: string, e: nat)
    requires e <= |t| && (e == |t| || t[e] != ' ')
    ensures var rest := Cuts(t[e..]); rest[0].sentence == [] || rest[0].sentence[0] != ' '
  {
    var rest := Cuts(t[e..]);
    CutsGlue(t[e..]);
    FirstSentenceIsPrefix(rest, t[e..]);
  }

  /** A sentence that ends in a terminal, has no break and is followed by spaces can go in front. */
  lemma WellCutCons(c: Cut, rest: seq<Cut>)
    requires WellCut(rest)
    requires c.sentence != [] && IsTerminal(c.sentence[|c.sentence| - 1]) && c.gap >= 1
    requires forall i :: !BreakAt(c.sentence, i)
    requires rest[0].sentence == [] || rest[0].sentence[0] != ' '
    ensures WellCut([c] + rest)
  {
    var cs := [c] + rest;
    forall k | 0 < k < |cs| ensures cs[k] == rest[k - 1] {
    }
  }

  /** The first sentence is a prefix of the glued text. */
  lemma FirstSentenceIsPrefix(cs: seq<Cut>, t: string)
    requires |cs| >= 1 && Glue(cs) == t
    ensures cs[0].sentence == t[..|cs[0].sentence|]
  {
    assert t == cs[0].sentence + (Spaces(cs[0].gap) + Glue(cs[1..]));
  }

  /** The pieces after the first keep the `WellCut` shape. */
  lemma WellCutTail(cs: seq<Cut>)
    requires WellCut(cs) && |cs| >= 2
    ensures WellCut(cs[1..])
  {
    var tail := cs[1..];
    forall k | 0 <= k < |tail| ensures tail[k] == cs[k + 1] {
    }
  }

  /** No match of the glued text falls inside its first sentence. */
  lemma NoBreakInFirst(cs: seq<Cut>, t: string)
    requires WellCut(cs) && Glue(cs) == t
    ensures forall i :: 0 <= i < |cs[0].sentence| ==> !BreakAt(t, i)
  {
    var s := cs[0].sentence;
    assert t == s + (Spaces(cs[0].gap) + Glue(cs[1..]));
    forall i | 0 < i < |s| ensures !BreakAt(t, i) {
      assert !BreakAt(s, i);
      assert t[i] == s[i] && t[i - 1] == s[i - 1];
    }
  }

  /** `FindBreak` is determined by its contract. */
  lemma {:induction false} FindBreakIs(t: string, i: nat, b: nat)
    requires i <= b <= |t| && (b < |t| ==> BreakAt(t, b))
    requires forall k :: i <= k < b ==> !BreakAt(t, k)
    ensures FindBreak(t, i) == b
    decreases |t| - i
  {
    if i < b {
      FindBreakIs(t, i + 1, b);
    }
  }

  /** `SpaceRun` is determined by its contract. */
  lemma {:induction false} SpaceRunIs(t: string, i: nat, j: nat)
    requires i <= j <= |t| && (forall k :: i <= k < j ==> t[k] == ' ') && (j == |t| || t[j] != ' ')
    ensures SpaceRun(t, i) == j
    decreases |t| - i
  {
    if i < j {
      SpaceRunIs(t, i + 1, j);
    }
  }

  /** For well-shaped pieces, the first match and its run of spaces are the first separator. */
  lemma FirstSeparator(cs: seq<Cut>, t: string)
    requires WellCut(cs) && Glue(cs) == t && |cs| >= 2
    ensures |cs[0].sentence| < |t| && FindBreak(t, 0) == |cs[0].sentence|
    ensures SpaceRun(t, |cs[0].sentence|) == |cs[0].sentence| + cs[0].gap
    ensures t[..|cs[0].sentence|] == cs[0].sentence
    ensures t[|cs[0].sentence| + cs[0].gap..] == Glue(cs[1..])
  {
    var s, g, tail := cs[0].sentence, cs[0].gap, Glue(cs[1..]);
    GlueParts(s, g, tail, t);
    NoBreakInFirst(cs, t);
    assert BreakAt(t, |s|);
    FindBreakIs(t, 0, |s|);
    assert tail == cs[1].sentence + Spaces(cs[1].gap) + Glue(cs[2..]);
    assert |cs| == 2 ==> tail == cs[1].sentence;
    SpaceRunIs(t, |s|, |s| + g);
  }

  /** A sentence, its removed spaces and the rest, laid end to end. */
  lemma GlueParts(s: string, g: nat, tail: string, t: string)
    requires t == s + Spaces(g) + tail
    ensures forall k :: 0 <= k < |s| ==> t[k] == s[k]
    ensures forall k :: |s| <= k < |s| + g ==> t[k] == ' '
    ensures |s| + g < |t| ==> t[|s| + g] == tail[0]
    ensures t[..|s|] == s && t[|s| + g..] == tail
  {
    assert t == s + (Spaces(g) + tail);
  }

  /** A single well-shaped piece is the whole text, which has no match. */
  lemma SingleCut(cs: seq<Cut>, t: string)
    requires WellCut(cs) && Glue(cs) == t && |cs| == 1
    ensures cs == Cuts(t)
  {
    assert cs[0].gap == 0 && Spaces(0) == [] && Glue(cs[1..]) == [];
    assert t == cs[0].sentence;
    NoBreakInFirst(cs, t);
    FindBreakIs(t, 0, |t|);
    assert Cuts(t) == [Cut(t, 0)];
  }

  /**
   * The split is the only well-shaped way to cut the text: any pieces of
   * `WellCut` shape that glue back to `t` are `Cuts(t)`.
   */
  lemma {:induction false} CutsUnique(cs: seq<Cut>, t: string)
    requires WellCut(cs) && Glue(cs) == t
    ensures cs == Cuts(t)
    decreases |cs|
  {
    if |cs| == 1 {
      SingleCut(cs, t);
    } else {
      WellCutTail(cs);
      CutsUnique(cs[1..], Glue(cs[1..]));
      CutsCons(cs, t);
    }
  }

  /** The first piece followed by the split of the rest is the split of the whole. */
  lemma CutsCons(cs: seq<Cut>, t: string)
    requires WellCut(cs) && Glue(cs) == t && |cs| >= 2
    requires cs[1..] == Cuts(Glue(cs[1..]))
    ensures cs == Cuts(t)
  {
    FirstSeparator(cs, t);
    CutsStep(t, cs[0], Glue(cs[1..]));
    assert cs == [cs[0]] + cs[1..];
  }

  /** One step of the split, given where its first separator lies. */
  lemma CutsStep(t: string, c: Cut, tail: string)
    requires |c.sentence| < |t| && FindBreak(t, 0) == |c.sentence|
    requires SpaceRun(t, |c.sentence|) == |c.sentence| + c.gap
    requires t[..|c.sentence|] == c.sentence && t[|c.sentence| + c.gap..] == tail
    ensures Cuts(t) == [c] + Cuts(tail)
  {
  }

  // ---------------------------------------------------------------------------
  // str.strip()
  // ---------------------------------------------------------------------------

  /** Python's `str.isspace` for one character. */
  predicate IsSpace(c: char) {
    || c == '\t' || c == '\n' || c == '\U{000B}' || c == '\U{000C}' || c == '\r'
    || ('\U{001C}' <= c <= '\U{001F}') || c == ' ' || c == '\U{0085}' || c == '\U{00A0}'
    || c == '\U{1680}' || ('\U{2000}' <= c <= '\U{200A}') || c == '\U{2028}' || c == '\U{2029}'
    || c == '\U{202F}' || c == '\U{205F}' || c == '\U{3000}'
  }

  /** `s.lstrip()`. */
  function TrimLeft(s: string): string {
    if s != [] && IsSpace(s[0]) then TrimLeft(s[1..]) else s
  }

  /** `s.rstrip()`. */
  function TrimRight(s: string): string {
    if s != [] && IsSpace(s[|s| - 1]) then TrimRight(s[..|s| - 1]) else s
  }

  /** `lstrip` removes exactly the leading whitespace. */
  lemma {:induction false} TrimLeftSpec(s: string)
    ensures |TrimLeft(s)| <= |s| && TrimLeft(s) == s[|s| - |TrimLeft(s)|..]
    ensures forall k :: 0 <= k < |s| - |TrimLeft(s)| ==> IsSpace(s[k])
    ensures TrimLeft(s) == [] || !IsSpace(TrimLeft(s)[0])
  {
    if s != [] && IsSpace(s[0]) {
      var r := TrimLeft(s[1..]);
      TrimLeftSpec(s[1..]);
      assert TrimLeft(s) == r;
      assert s[1..][|s| - 1 - |r|..] == s[|s| - |r|..];
      forall k | 0 < k < |s| - |r| ensures IsSpace(s[k]) {
        assert s[k] == s[1..][k - 1];
      }
    }
  }

  /** `rstrip` removes exactly the trailing whitespace. */
  lemma {:induction false} TrimRightSpec(s: string)
    ensures |TrimRight(s)| <= |s| && TrimRight(s) == s[..|TrimRight(s)|]
    ensures forall k :: |TrimRight(s)| <= k < |s| ==> IsSpace(s[k])
    ensures TrimRight(s) == [] || !IsSpace(TrimRight(s)[|TrimRight(s)| - 1])
  {
    if s != [] && IsSpace(s[|s| - 1]) {
      TrimRightSpec(s[..|s| - 1]);
    }
  }

  /** `s.strip()`. */
  function Strip(s: string): string {
    TrimRight(TrimLeft(s))
  }

  /** `s.strip()` is `s` without its leading and trailing whitespace. */
  lemma StripSpec(s: string)
    ensures exists i :: 0 <= i <= |s| - |Strip(s)| && Strip(s) == s[i..][..|Strip(s)|]
                     && (forall k :: 0 <= k < i ==> IsSpace(s[k]))
                     && (forall k :: i + |Strip(s)| <= k < |s| ==> IsSpace(s[k]))
    ensures Strip(s) == [] || (!IsSpace(Strip(s)[0]) && !IsSpace(Strip(s)[|Strip(s)| - 1]))
  {
    var left := TrimLeft(s);
    TrimLeftSpec(s);
    TrimRightSpec(left);
    var r := TrimRight(left);
    var i := |s| - |left|;
    assert left == s[i..];
    forall k | i + |r| <= k < |s| ensures IsSpace(s[k]) {
      assert s[k] == left[k - i];
    }
  }

  // ---------------------------------------------------------------------------
  // Greedy packing
  // ---------------------------------------------------------------------------

  /**
   * The text `current_chunk` holds after the sentences of `g` were added one
   * by one: the first non-empty text is taken as it is, every later sentence
   * is appended after a single space.
   */
  function Acc(g: seq<string>): string {
    if g == [] then ""
    else
      var prev := Acc(g[..|g| - 1]);
      var s := g[|g| - 1];
      if prev == "" then s else prev + " " + s
  }

  /** `" ".join(g)`. */
  function JoinSpace(g: seq<string>): string {
    if g == [] then ""
    else if |g| == 1 then g[0]
    else JoinSpace(g[..|g| - 1]) + " " + g[|g| - 1]
  }

  /** Without empty sentences, the accumulated text is the single-space join. */
  lemma {:induction false} AccIsJoin(g: seq<string>)
    requires forall k :: 0 <= k < |g| ==> g[k] != ""
    ensures Acc(g) == JoinSpace(g)
    ensures g != [] ==> Acc(g) != ""
  {
    if g != [] {
      var n := |g| - 1;
      AccIsJoin(g[..n]);
      assert g[..n][..] == g[..n];
      assert |Acc(g)| >= |g[n]|;
    }
  }

  /** Any non-empty sentence makes the accumulated text non-empty. */
  lemma {:induction false} AccNonEmpty(g: seq<string>, k: nat)
    requires k < |g| && g[k] != ""
    ensures Acc(g) != ""
  {
    var n := |g| - 1;
    if k < n {
      AccNonEmpty(g[..n], k);
    }
  }

  /**
   * The loop keeps sentence `S[p]` in the chunk that started at sentence
   * `start`: the chunk is still empty, or the text with `S[p]` appended
   * counts at most `maxTokens`.
   */
  predicate Fits(S: seq<string>, count: string -> nat, maxTokens: int, start: nat, p: nat)
    requires start <= p < |S|
  {
    var current := Acc(S[start..p]);
    current == "" || count(current + " " + S[p]) <= maxTokens
  }

  /**
   * `cuts` splits sentence positions `0..n` into consecutive non-empty groups
   * `cuts[g]..cuts[g + 1]`.
   */
  predicate IsPartition(n: nat, cuts: seq<nat>) {
    && |cuts| >= 1 && cuts[0] == 0 && cuts[|cuts| - 1] == n
    && forall a, b :: 0 <= a < b < |cuts| ==> cuts[a] < cuts[b]
  }

  function Group(S: seq<string>, cuts: seq<nat>, g: nat): seq<string>
    requires IsPartition(|S|, cuts) && g < |cuts| - 1
  {
    S[cuts[g]..cuts[g + 1]]
  }

  /**
   * The grouping `split_chunks` makes: inside a group every sentence fits,
   * and a new group starts exactly where the next sentence does not.
   */
  predicate GreedyPacking(S: seq<string>, count: string -> nat, maxTokens: int, cuts: seq<nat>) {
    && IsPartition(|S|, cuts)
    && (forall g, p :: 0 <= g < |cuts| - 1 && cuts[g] < p < cuts[g + 1] ==>
          Fits(S, count, maxTokens, cuts[g], p))
    && (forall g :: 0 < g < |cuts| - 1 ==> !Fits(S, count, maxTokens, cuts[g - 1], cuts[g]))
  }

  /**
   * The chunks of the first `m` groups, in order: each group whose text is
   * not empty, stripped; a group with empty text is not appended.
   */
  function Emitted(S: seq<string>, cuts: seq<nat>, m: nat): seq<string>
    requires IsPartition(|S|, cuts) && m <= |cuts| - 1
  {
    if m == 0 then []
    else
      var text := Acc(Group(S, cuts, m - 1));
      Emitted(S, cuts, m - 1) + (if text == "" then [] else [Strip(text)])
  }

  function ChunksOf(S: seq<string>, cuts: seq<nat>): seq<string>
    requires IsPartition(|S|, cuts)
  {
    Emitted(S, cuts, |cuts| - 1)
  }

  /** Adding a cut leaves the chunks of the earlier groups as they were. */
  lemma {:induction false} EmittedExtend(S: seq<string>, d: seq<nat>, i: nat, m: nat)
    requires |d| >= 1 && IsPartition(|S|, d + [|S|]) && IsPartition(|S|, d + [i] + [|S|])
    requires m <= |d| - 1
    ensures Emitted(S, d + [i] + [|S|], m) == Emitted(S, d + [|S|], m)
  {
    if m > 0 {
      EmittedExtend(S, d, i, m - 1);
      var old_, new_ := d + [|S|], d + [i] + [|S|];
      assert new_[m - 1] == old_[m - 1] && new_[m] == old_[m];
      assert Group(S, new_, m - 1) == Group(S, old_, m - 1);
    }
  }

  /**
   * The state of the packing loop after `i` sentences: `done` lists where the
   * chunks so far began, the last one being the chunk still open; every
   * closed chunk was packed greedily, and every sentence after the start of
   * the open chunk fitted into it.
   */
  ghost predicate PackedUpTo(S: seq<string>, count: string -> nat, maxTokens: int, done: seq<nat>, i: nat) {
    && i <= |S| && |done| >= 1 && done[0] == 0
    && (forall a, b :: 0 <= a < b < |done| ==> done[a] < done[b])
    && done[|done| - 1] < |S| && done[|done| - 1] <= i
    && (done[|done| - 1] < i || i == 0)
    && (forall g, p :: 0 <= g < |done| - 1 && done[g] < p < done[g + 1] ==>
          Fits(S, count, maxTokens, done[g], p))
    && (forall g :: 0 < g < |done| ==> !Fits(S, count, maxTokens, done[g - 1], done[g]))
    && OpenFits(S, count, maxTokens, done[|done| - 1], i)
  }

  /** Every sentence after `start` and before `i` fitted into the chunk opened at `start`. */
  ghost predicate OpenFits(S: seq<string>, count: string -> nat, maxTokens: int, start: nat, i: nat)
    requires start <= i <= |S|
  {
    forall p :: start < p < i ==> Fits(S, count, maxTokens, start, p)
  }

  lemma PackedPartition(S: seq<string>, count: string -> nat, maxTokens: int, done: seq<nat>, i: nat)
    requires PackedUpTo(S, count, maxTokens, done, i)
    ensures IsPartition(|S|, done + [|S|])
  {
    var cuts := done + [|S|];
    forall a, b | 0 <= a < b < |cuts| ensures cuts[a] < cuts[b] {
      if b < |done| {
        assert cuts[a] == done[a] && cuts[b] == done[b];
      } else {
        assert cuts[a] == done[a] <= done[|done| - 1];
      }
    }
  }

  /** The sentence at `i` fits: the open chunk grows. */
  lemma KeepStep(S: seq<string>, count: string -> nat, maxTokens: int, done: seq<nat>, i: nat)
    requires PackedUpTo(S, count, maxTokens, done, i) && i < |S|
    requires Fits(S, count, maxTokens, done[|done| - 1], i)
    ensures PackedUpTo(S, count, maxTokens, done, i + 1)
  {
  }

  /** The sentence at `i` does not fit: the open chunk is closed and `i` opens the next. */
  lemma CutStep(S: seq<string>, count: string -> nat, maxTokens: int, done: seq<nat>, i: nat)
    requires PackedUpTo(S, count, maxTokens, done, i) && i < |S|
    requires !Fits(S, count, maxTokens, done[|done| - 1], i)
    ensures PackedUpTo(S, count, maxTokens, done + [i], i + 1)
  {
    var next := done + [i];
    assert S[i..i] == [];
    forall a, b | 0 <= a < b < |next| ensures next[a] < next[b] {
      if b < |done| {
        assert next[a] == done[a] && next[b] == done[b];
      } else {
        assert next[a] == done[a] <= done[|done| - 1];
      }
    }
    forall g, p | 0 <= g < |next| - 1 && next[g] < p < next[g + 1]
      ensures Fits(S, count, maxTokens, next[g], p)
    {
      assert next[g] == done[g];
    }
    forall g | 0 < g < |next| ensures !Fits(S, count, maxTokens, next[g - 1], next[g]) {
      assert next[g - 1] == done[g - 1];
    }
  }

  /** After the last sentence, the chunk starts in `done` and the end make a greedy packing. */
  lemma FinishPacking(S: seq<string>, count: string -> nat, maxTokens: int, done: seq<nat>)
    requires PackedUpTo(S, count, maxTokens, done, |S|)
    ensures GreedyPacking(S, count, maxTokens, done + [|S|])
  {
    var cuts := done + [|S|];
    PackedPartition(S, count, maxTokens, done, |S|);
    forall g, p | 0 <= g < |cuts| - 1 && cuts[g] < p < cuts[g + 1]
      ensures Fits(S, count, maxTokens, cuts[g], p)
    {
      assert cuts[g] == done[g];
    }
    forall g | 0 < g < |cuts| - 1 ensures !Fits(S, count, maxTokens, cuts[g - 1], cuts[g]) {
      assert cuts[g - 1] == done[g - 1] && cuts[g] == done[g];
    }
  }

  /** One more sentence in `current_chunk`. */
  lemma AccStep(S: seq<string>, start: nat, i: nat)
    requires start <= i < |S|
    ensures Acc(S[start..i + 1]) == if Acc(S[start..i]) == "" then S[i] else Acc(S[start..i]) + " " + S[i]
  {
    assert S[start..i + 1][..i - start] == S[start..i];
  }

  /**
   * The loop state after `i` sentences: the packing so far, `current_chunk`
   * holding the text of the open chunk, and `chunks` holding the closed ones.
   */
  ghost predicate LoopState(S: seq<string>, count: string -> nat, maxTokens: int, done: seq<nat>, i: nat,
                            current: string, chunks: seq<string>)
  {
    && PackedUpTo(S, count, maxTokens, done, i)
    && IsPartition(|S|, done + [|S|])
    && current == Acc(S[done[|done| - 1]..i])
    && chunks == Emitted(S, done + [|S|], |done| - 1)
  }

  /** `tentative` fits (or the chunk was empty): it becomes `current_chunk`. */
  lemma KeepState(S: seq<string>, count: string -> nat, maxTokens: int, done: seq<nat>, i: nat,
                  current: string, chunks: seq<string>, tentative: string)
    requires LoopState(S, count, maxTokens, done, i, current, chunks) && i < |S|
    requires tentative == if current != "" then current + " " + S[i] else S[i]
    requires count(tentative) <= maxTokens || current == ""
    ensures LoopState(S, count, maxTokens, done, i + 1, tentative, chunks)
  {
    AccStep(S, done[|done| - 1], i);
    KeepStep(S, count, maxTokens, done, i);
  }

  /** `tentative` does not fit: the stripped chunk is appended and the sentence opens the next. */
  lemma CutState(S: seq<string>, count: string -> nat, maxTokens: int, done: seq<nat>, i: nat,
                 current: string, chunks: seq<string>)
    requires LoopState(S, count, maxTokens, done, i, current, chunks) && i < |S|
    requires current != "" && count(current + " " + S[i]) > maxTokens
    ensures LoopState(S, count, maxTokens, done + [i], i + 1, S[i], chunks + [Strip(current)])
  {
    CutStep(S, count, maxTokens, done, i);
    PackedPartition(S, count, maxTokens, done + [i], i + 1);
    AccSingle(S, i);
    CutChunks(S, done, i, current, chunks);
  }

  lemma AccSingle(S: seq<string>, i: nat)
    requires i < |S|
    ensures Acc(S[i..i + 1]) == S[i]
  {
    assert S[i..i + 1] == [S[i]];
    assert S[i..i + 1][..0] == [];
  }

  /** Closing the open chunk at `i` appends its stripped text to the chunks. */
  lemma CutChunks(S: seq<string>, done: seq<nat>, i: nat, current: string, chunks: seq<string>)
    requires |done| >= 1 && IsPartition(|S|, done + [|S|]) && IsPartition(|S|, done + [i] + [|S|])
    requires done[|done| - 1] < i < |S|
    requires current == Acc(S[done[|done| - 1]..i]) && current != ""
    requires chunks == Emitted(S, done + [|S|], |done| - 1)
    ensures chunks + [Strip(current)] == Emitted(S, done + [i] + [|S|], |done|)
  {
    EmittedExtend(S, done, i, |done| - 1);
    LastGroup(S, done, i);
    EmittedSnoc(S, done + [i] + [|S|], |done| - 1, current, chunks);
  }

  /** The group before the new cut `i` runs from the last old cut to `i`. */
  lemma LastGroup(S: seq<string>, done: seq<nat>, i: nat)
    requires |done| >= 1 && IsPartition(|S|, done + [i] + [|S|])
    requires done[|done| - 1] < i < |S|
    ensures Group(S, done + [i] + [|S|], |done| - 1) == S[done[|done| - 1]..i]
  {
    var cuts := done + [i] + [|S|];
    assert cuts[|done| - 1] == done[|done| - 1] && cuts[|done|] == i;
  }

  /** A group with text adds its stripped text to the chunks before it. */
  lemma EmittedSnoc(S: seq<string>, cuts: seq<nat>, m: nat, text: string, chunks: seq<string>)
    requires IsPartition(|S|, cuts) && m < |cuts| - 1
    requires text == Acc(Group(S, cuts, m)) && text != ""
    requires chunks == Emitted(S, cuts, m)
    ensures chunks + [Strip(text)] == Emitted(S, cuts, m + 1)
  {
  }

  /** The final `if current_chunk` append completes the chunks of the packing. */
  lemma FinishState(S: seq<string>, count: string -> nat, maxTokens: int, done: seq<nat>,
                    current: string, chunks: seq<string>, chunks': seq<string>)
    requires LoopState(S, count, maxTokens, done, |S|, current, chunks)
    requires current != "" ==> chunks' == chunks + [Strip(current)]
    requires current == "" ==> chunks' == chunks
    ensures exists cuts :: GreedyPacking(S, count, maxTokens, cuts) && chunks' == ChunksOf(S, cuts)
  {
    var cuts := done + [|S|];
    FinishPacking(S, count, maxTokens, done);
    assert Group(S, cuts, |done| - 1) == S[done[|done| - 1]..|S|];
    assert GreedyPacking(S, count, maxTokens, cuts) && chunks' == ChunksOf(S, cuts);
  }

  /** Before the loop: no sentence read, nothing appended, the first chunk open at 0. */
  lemma InitState(S: seq<string>, count: string -> nat, maxTokens: int)
    requires |S| >= 1
    ensures LoopState(S, count, maxTokens, [0], 0, "", [])
  {
    assert [0] + [|S|] == [0, |S|];
  }

  /**
   * `split_chunks` with the token counter `count`: the chunks of the greedy
   * packing of the sentences (which `PackingUnique` shows is the only one).
   */
  method SplitChunks(text: string, count: string -> nat, maxTokens: int := ChunkTokenSize)
    returns (chunks: seq<string>)
    ensures exists cuts :: GreedyPacking(SplitSentences(text), count, maxTokens, cuts) &&
                           chunks == ChunksOf(SplitSentences(text), cuts)
  {
    var sentences := SplitSentences(text);
    chunks := PackSentences(sentences, count, maxTokens);
  }

  /** The loop of `split_chunks` over the sentences. */
  method PackSentences(sentences: seq<string>, count: string -> nat, maxTokens: int)
    returns (chunks: seq<string>)
    requires |sentences| >= 1
    ensures exists cuts :: GreedyPacking(sentences, count, maxTokens, cuts) && chunks == ChunksOf(sentences, cuts)
  {
    chunks := [];
    var current := "";
    ghost var done: seq<nat> := [0];
    InitState(sentences, count, maxTokens);
    for i := 0 to |sentences|
      invariant LoopState(sentences, count, maxTokens, done, i, current, chunks)
    {
      var tentative := if current != "" then current + " " + sentences[i] else sentences[i];
      if count(tentative) <= maxTokens {
        KeepState(sentences, count, maxTokens, done, i, current, chunks, tentative);
        current := tentative;
      } else {
        if current != "" {
          CutState(sentences, count, maxTokens, done, i, current, chunks);
          chunks := chunks + [Strip(current)];
          done := done + [i];
        } else {
          KeepState(sentences, count, maxTokens, done, i, current, chunks, tentative);
        }
        current := sentences[i];
      }
    }
    ghost var chunks0 := chunks;
    if current != "" {
      chunks := chunks + [Strip(current)];
    }
    FinishState(sentences, count, maxTokens, done, current, chunks0, chunks);
  }

  // ---------------------------------------------------------------------------
  // What the packing guarantees
  // ---------------------------------------------------------------------------

  /**
   * A chunk's text either counts at most `maxTokens`, or is its last sentence
   * alone (a sentence that was too long by itself).
   */
  lemma ChunkFits(S: seq<string>, count: string -> nat, maxTokens: int, cuts: seq<nat>, g: nat)
    requires GreedyPacking(S, count, maxTokens, cuts) && g < |cuts| - 1
    ensures var text := Acc(Group(S, cuts, g));
            count(text) <= maxTokens || text == S[cuts[g + 1] - 1]
  {
    var start, p := cuts[g], cuts[g + 1] - 1;
    AccStep(S, start, p);
    assert Group(S, cuts, g) == S[start..p + 1];
    if start < p {
      assert Fits(S, count, maxTokens, start, p);
    } else {
      assert S[start..p] == [];
    }
  }

  /** Every closed chunk has non-empty text: only the final one can be dropped. */
  lemma ClosedChunksNonEmpty(S: seq<string>, count: string -> nat, maxTokens: int, cuts: seq<nat>, g: nat)
    requires GreedyPacking(S, count, maxTokens, cuts) && g + 1 < |cuts| - 1
    ensures Acc(Group(S, cuts, g)) != ""
  {
    assert !Fits(S, count, maxTokens, cuts[g], cuts[g + 1]);
  }

  /** `c` is the chunk group `g` yields: its text is not empty and `c` is that text stripped. */
  predicate ChunkOf(S: seq<string>, cuts: seq<nat>, g: nat, c: string)
    requires IsPartition(|S|, cuts) && g < |cuts| - 1
  {
    Acc(Group(S, cuts, g)) != "" && c == Strip(Acc(Group(S, cuts, g)))
  }

  /** The chunks are exactly the stripped texts of the groups whose text is not empty. */
  lemma {:induction false} EmittedMembers(S: seq<string>, cuts: seq<nat>, m: nat, c: string)
    requires IsPartition(|S|, cuts) && m <= |cuts| - 1
    ensures c in Emitted(S, cuts, m) <==> exists g :: 0 <= g < m && ChunkOf(S, cuts, g, c)
  {
    if m > 0 {
      EmittedMembers(S, cuts, m - 1, c);
      EmittedLast(S, cuts, m, c);
      if c in Emitted(S, cuts, m - 1) {
        var g :| 0 <= g < m - 1 && ChunkOf(S, cuts, g, c);
        assert 0 <= g < m && ChunkOf(S, cuts, g, c);
      }
      if exists g :: 0 <= g < m && ChunkOf(S, cuts, g, c) {
        var g :| 0 <= g < m && ChunkOf(S, cuts, g, c);
        assert g < m - 1 || ChunkOf(S, cuts, m - 1, c);
      }
    }
  }

  /** The chunks of `m` groups are those of the first `m - 1` and the chunk of the last. */
  lemma EmittedLast(S: seq<string>, cuts: seq<nat>, m: nat, c: string)
    requires IsPartition(|S|, cuts) && 0 < m <= |cuts| - 1
    ensures c in Emitted(S, cuts, m) <==> c in Emitted(S, cuts, m - 1) || ChunkOf(S, cuts, m - 1, c)
  {
    var text := Acc(Group(S, cuts, m - 1));
    var prev := Emitted(S, cuts, m - 1);
    var added := if text == "" then [] else [Strip(text)];
    assert Emitted(S, cuts, m) == prev + added;
    assert c in prev + added <==> c in prev || c in added;
  }

  /** Two greedy packings of the same sentences agree on every cut they both have. */
  lemma {:induction false} CutsAgree(S: seq<string>, count: string -> nat, maxTokens: int,
                                     c1: seq<nat>, c2: seq<nat>, g: nat)
    requires GreedyPacking(S, count, maxTokens, c1) && GreedyPacking(S, count, maxTokens, c2)
    requires g < |c1| && g < |c2|
    ensures c1[g] == c2[g]
  {
    if g > 0 {
      CutsAgree(S, count, maxTokens, c1, c2, g - 1);
    }
  }

  /**
   * The greedy packing is unique: the grouping `split_chunks` returns is the
   * only one in which every sentence fits and every chunk is closed exactly
   * when the next sentence does not fit.
   */
  lemma PackingUnique(S: seq<string>, count: string -> nat, maxTokens: int, c1: seq<nat>, c2: seq<nat>)
    requires GreedyPacking(S, count, maxTokens, c1) && GreedyPacking(S, count, maxTokens, c2)
    ensures c1 == c2
  {
    if |c1| < |c2| {
      CutsAgree(S, count, maxTokens, c1, c2, |c1| - 1);
    } else if |c2| < |c1| {
      CutsAgree(S, count, maxTokens, c1, c2, |c2| - 1);
    }
    forall g | 0 <= g < |c1| ensures c1[g] == c2[g] {
      CutsAgree(S, count, maxTokens, c1, c2, g);
    }
  }

  /** Every non-empty sentence lies in a group whose text is not empty, so it is among the chunks. */
  lemma SentenceInAChunk(S: seq<string>, count: string -> nat, maxTokens: int, cuts: seq<nat>, p: nat)
    requires GreedyPacking(S, count, maxTokens, cuts) && p < |S| && S[p] != ""
    ensures exists g :: 0 <= g < |cuts| - 1 && cuts[g] <= p < cuts[g + 1] && Acc(Group(S, cuts, g)) != ""
  {
    var g := GroupOf(cuts, p);
    var lo, hi := cuts[g], cuts[g + 1];
    var G := Group(S, cuts, g);
    assert G == S[lo..hi];
    assert G[p - lo] == S[p];
    AccNonEmpty(G, p - lo);
  }

  /** Groups do not overlap: a sentence position lies in one group only. */
  lemma GroupsDisjoint(n: nat, cuts: seq<nat>, p: nat, g1: nat, g2: nat)
    requires IsPartition(n, cuts)
    requires g1 < |cuts| - 1 && cuts[g1] <= p < cuts[g1 + 1]
    requires g2 < |cuts| - 1 && cuts[g2] <= p < cuts[g2 + 1]
    ensures g1 == g2
  {
  }

  /** The group a sentence position falls in. */
  function GroupOf(cuts: seq<nat>, p: nat): (g: nat)
    requires |cuts| >= 2 && cuts[0] <= p < cuts[|cuts| - 1]
    ensures g < |cuts| - 1 && cuts[g] <= p < cuts[g + 1]
    decreases |cuts|
  {
    if p < cuts[1] then 0 else 1 + GroupOf(cuts[1..], p)
  }
}
