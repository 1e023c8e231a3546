/**
 * Metadata from a file name (modules/name_classifier.py,
 * `classify_by_filename`).
 *
 * The extension is cut at the last dot, the rest is split at every run of
 * `_`, `-` and spaces, and the tokens are scanned left to right: the first
 * known category and the first four-digit token are kept, while every month
 * token overwrites the one before, with each `월` removed.
 */
module NameClassifier {
  import opened Wrappers

  /** The three fields of the returned dictionary; `None` where nothing matched. */
  datatype Metadata = Metadata(category: Option<string>, year: Option<string>, month: Option<string>)

  /** The category names recognised. */
  const Categories: seq<string> := ["회의록", "가이드", "정책", "보고서", "전략", "계획"]

  /** The month suffix. */
  const MonthMark: char := '월'

  // ---------------------------------------------------------------------------
  // `filename.rsplit(".", 1)[0]`
  // ---------------------------------------------------------------------------

  /** The position of the last `c` in `s`, if any. */
  function LastIndexOf(s: string, c: char): (r: Option<nat>)
    ensures r.None? ==> c !in s
    ensures r.Some? ==> r.value < |s| && s[r.value] == c &&
                        forall j :: r.value < j < |s| ==> s[j] != c
  {
    if |s| == 0 then None
    else if s[|s| - 1] == c then Some(|s| - 1)
    else
      var r := LastIndexOf(s[..|s| - 1], c);
      assert forall j :: 0 <= j < |s| - 1 ==> s[..|s| - 1][j] == s[j];
      r
  }

  /**
   * The file name without its extension: everything before the last dot, or
   * the whole name when it has no dot.
   */
  function BaseName(filename: string): (r: string)
    ensures |r| <= |filename| && r == filename[..|r|]
    ensures (r == filename && '.' !in filename) ||
            (|r| < |filename| && filename[|r|] == '.' && '.' !in filename[|r| + 1..])
  {
    match LastIndexOf(filename, '.')
    case None => filename
    case Some(i) => filename[..i]
  }

  // ---------------------------------------------------------------------------
  // `re.split(r'[_\- ]+', base_name)`
  // ---------------------------------------------------------------------------

  predicate IsSeparator(c: char) {
    c == '_' || c == '-' || c == ' '
  }

  predicate NoSeparator(t: string) {
    forall k :: 0 <= k < |t| ==> !IsSeparator(t[k])
  }

  /** The first separator at or after `i`, or `|s|`. */
  function FindSeparator(s: string, i: nat): (j: nat)
    requires i <= |s|
    ensures i <= j <= |s| && NoSeparator(s[i..j])
    ensures j < |s| ==> IsSeparator(s[j])
    decreases |s| - i
  {
    if i == |s| || IsSeparator(s[i]) then i else FindSeparator(s, i + 1)
  }

  /** The end of the run of separators that starts at `i`. */
  function SeparatorRun(s: string, i: nat): (j: nat)
    requires i <= |s|
    ensures i <= j <= |s|
    ensures forall k :: i <= k < j ==> IsSeparator(s[k])
    ensures j < |s| ==> !IsSeparator(s[j])
    decreases |s| - i
  {
    if i < |s| && IsSeparator(s[i]) then SeparatorRun(s, i + 1) else i
  }

  /**
   * The pieces between maximal separator runs. A leading or trailing run
   * gives an empty first or last piece, as Python's `re.split` does.
   */
  function Tokens(s: string): seq<string>
    decreases |s|
  {
    var i := FindSeparator(s, 0);
    if i == |s| then [s]
    else [s[..i]] + Tokens(s[SeparatorRun(s, i)..])
  }

  /** The tokens joined back with the separator `sep` between them. */
  function Join(ts: seq<string>, sep: char): string
    requires |ts| >= 1
  {
    if |ts| == 1 then ts[0] else ts[0] + [sep] + Join(ts[1..], sep)
  }

  /** The text with every separator removed. */
  function DropSeparators(s: string): (r: string)
    ensures NoSeparator(r)
  {
    if s == [] then []
    else if IsSeparator(s[0]) then DropSeparators(s[1..])
    else [s[0]] + DropSeparators(s[1..])
  }

  function Concat(ts: seq<string>): string {
    if ts == [] then [] else ts[0] + Concat(ts[1..])
  }

  /** The token sequences `re.split` can produce: at least one token, no separators, no empty token inside. */
  predicate WellSplit(ts: seq<string>) {
    && |ts| >= 1
    && (forall k :: 0 <= k < |ts| ==> NoSeparator(ts[k]))
    && (forall k :: 0 < k < |ts| - 1 ==> ts[k] != "")
  }

  /** Splitting always yields a well-formed token sequence. */
  lemma {:induction false} TokensWellSplit(s: string)
    ensures WellSplit(Tokens(s))
    decreases |s|
  {
    var i := FindSeparator(s, 0);
    if i < |s| {
      var j := SeparatorRun(s, i);
      var rest := s[j..];
      TokensWellSplit(rest);
      var ts := Tokens(s);
      assert ts == [s[..i]] + Tokens(rest);
      assert s[..i] == s[0..i];
      if |ts| > 2 {
        var first := FindSeparator(rest, 0);
        assert 0 < first by {
          assert rest[0] == s[j];
        }
        assert Tokens(rest)[0] == rest[..first];
      }
    }
  }

  /** Splitting loses exactly the separators. */
  lemma {:induction false} TokensConcat(s: string)
    ensures Concat(Tokens(s)) == DropSeparators(s)
    decreases |s|
  {
    var i := FindSeparator(s, 0);
    DropPrefix(s, i);
    if i == |s| {
      assert s[..i] == s;
      assert Concat([s]) == s + Concat([]);
    } else {
      var j := SeparatorRun(s, i);
      TokensConcat(s[j..]);
      DropRun(s, i, j);
      var ts := Tokens(s);
      assert ts[1..] == Tokens(s[j..]);
    }
  }

  /** Dropping separators from a text without any leaves it unchanged. */
  lemma {:induction false} DropNone(t: string)
    requires NoSeparator(t)
    ensures DropSeparators(t) == t
  {
    if t != [] {
      DropNone(t[1..]);
    }
  }

  /** Dropping separators distributes over concatenation. */
  lemma {:induction false} DropAppend(a: string, b: string)
    ensures DropSeparators(a + b) == DropSeparators(a) + DropSeparators(b)
  {
    if a != [] {
      var ab := a + b;
      assert ab[0] == a[0];
      assert ab[1..] == a[1..] + b;
      DropAppend(a[1..], b);
      if IsSeparator(a[0]) {
        assert DropSeparators(ab) == DropSeparators(ab[1..]);
      } else {
        assert DropSeparators(ab) == [a[0]] + DropSeparators(ab[1..]);
      }
    } else {
      assert a + b == b;
    }
  }

  /** `DropSeparators(s) == s[..i] + DropSeparators(s[i..])` when `s[..i]` has no separator. */
  lemma DropPrefix(s: string, i: nat)
    requires i <= |s| && NoSeparator(s[..i])
    ensures DropSeparators(s) == s[..i] + DropSeparators(s[i..])
  {
    assert s == s[..i] + s[i..];
    DropAppend(s[..i], s[i..]);
    DropNone(s[..i]);
  }

  /** A run of separators disappears. */
  lemma {:induction false} DropRun(s: string, i: nat, j: nat)
    requires i <= j <= |s|
    requires forall k :: i <= k < j ==> IsSeparator(s[k])
    ensures DropSeparators(s[i..]) == DropSeparators(s[j..])
    decreases j - i
  {
    if i < j {
      assert s[i..][1..] == s[i + 1..];
      DropRun(s, i + 1, j);
    }
  }

  /** On a joined, well-formed token sequence, the split finds the first token. */
  lemma JoinFirstSeparator(ts: seq<string>, sep: char)
    requires WellSplit(ts) && |ts| >= 2 && IsSeparator(sep)
    ensures var s := Join(ts, sep);
            FindSeparator(s, 0) == |ts[0]| && SeparatorRun(s, |ts[0]|) == |ts[0]| + 1 &&
            s[..|ts[0]|] == ts[0] && s[|ts[0]| + 1..] == Join(ts[1..], sep)
  {
    var s := Join(ts, sep);
    var n := |ts[0]|;
    var rest := Join(ts[1..], sep);
    assert s == ts[0] + [sep] + rest;
    assert s[..n] == ts[0];
    assert s[n + 1..] == rest;
    FindSeparatorIs(s, 0, n);
    if rest != [] {
      assert !IsSeparator(rest[0]) by {
        if |ts| > 2 {
          assert ts[1] != "";
          assert rest == ts[1] + [sep] + Join(ts[2..], sep);
          assert rest[0] == ts[1][0];
        } else {
          assert rest == ts[1];
        }
      }
      assert s[n + 1] == rest[0];
    }
  }

  /** `FindSeparator` stops at the first separator. */
  lemma {:induction false} FindSeparatorIs(s: string, i: nat, n: nat)
    requires i <= n < |s| && IsSeparator(s[n])
    requires forall k :: i <= k < n ==> !IsSeparator(s[k])
    ensures FindSeparator(s, i) == n
    decreases n - i
  {
    if i < n {
      FindSeparatorIs(s, i + 1, n);
    }
  }

  /**
   * Joining well-formed tokens with any one separator and splitting again
   * gives the tokens back.
   */
  lemma {:induction false} TokensJoin(ts: seq<string>, sep: char)
    requires WellSplit(ts) && IsSeparator(sep)
    ensures Tokens(Join(ts, sep)) == ts
    decreases |ts|
  {
    var s := Join(ts, sep);
    if |ts| == 1 {
      assert s == ts[0];
      assert FindSeparator(s, 0) == |s|;
    } else {
      var n := |ts[0]|;
      JoinFirstSeparator(ts, sep);
      WellSplitTail(ts);
      TokensJoin(ts[1..], sep);
      assert Tokens(s) == [s[..n]] + Tokens(s[n + 1..]);
      assert ts == [ts[0]] + ts[1..];
    }
  }

  /** A non-empty run of separators, as the pattern `[_\- ]+` matches one. */
  predicate IsRun(r: string) {
    r != [] && forall k :: 0 <= k < |r| ==> IsSeparator(r[k])
  }

  /** The separator runs the split removes, in order. */
  function Runs(s: string): seq<string>
    decreases |s|
  {
    var i := FindSeparator(s, 0);
    if i == |s| then []
    else [s[i..SeparatorRun(s, i)]] + Runs(s[SeparatorRun(s, i)..])
  }

  /** Tokens and runs taken in turn, starting and ending with a token. */
  function Interleave(ts: seq<string>, runs: seq<string>): string
    requires |ts| == |runs| + 1
    decreases |runs|
  {
    if runs == [] then ts[0] else ts[0] + runs[0] + Interleave(ts[1..], runs[1..])
  }

  /** One step of the split: the text before the first separator, then the split after its run. */
  lemma SplitFirst(s: string, i: nat, j: nat)
    requires i == FindSeparator(s, 0) && i < |s| && j == SeparatorRun(s, i)
    ensures IsRun(s[i..j])
    ensures Tokens(s) == [s[..i]] + Tokens(s[j..])
    ensures Runs(s) == [s[i..j]] + Runs(s[j..])
  {
    assert j > i;
  }

  /** Nothing of the name is lost: the tokens with the removed runs between them give it back. */
  lemma {:induction false} TokensGlue(s: string)
    ensures |Runs(s)| == |Tokens(s)| - 1
    ensures forall k :: 0 <= k < |Runs(s)| ==> IsRun(Runs(s)[k])
    ensures Interleave(Tokens(s), Runs(s)) == s
    decreases |s|
  {
    var i := FindSeparator(s, 0);
    if i == |s| {
      assert Tokens(s) == [s] && Runs(s) == [];
    } else {
      var j := SeparatorRun(s, i);
      TokensGlue(s[j..]);
      SplitFirst(s, i, j);
      InterleaveCons(s[..i], s[i..j], Tokens(s[j..]), Runs(s[j..]));
      RunsCons(s[i..j], Runs(s[j..]));
      assert s == s[..i] + s[i..j] + s[j..];
    }
  }

  lemma InterleaveCons(t: string, r: string, ts: seq<string>, runs: seq<string>)
    requires |ts| == |runs| + 1
    ensures Interleave([t] + ts, [r] + runs) == t + r + Interleave(ts, runs)
  {
    assert ([t] + ts)[1..] == ts && ([r] + runs)[1..] == runs;
  }

  lemma RunsCons(r: string, runs: seq<string>)
    requires IsRun(r) && forall k :: 0 <= k < |runs| ==> IsRun(runs[k])
    ensures forall k :: 0 <= k < |[r] + runs| ==> IsRun(([r] + runs)[k])
  {
    forall k | 0 < k < |[r] + runs| ensures IsRun(([r] + runs)[k]) {
      assert ([r] + runs)[k] == runs[k - 1];
    }
  }

  /** Facts about a string made of three consecutive parts. */
  lemma ThreeParts(a: string, b: string, c: string, s: string)
    requires s == a + b + c
    ensures forall k :: 0 <= k < |a| ==> s[k] == a[k]
    ensures forall k :: |a| <= k < |a| + |b| ==> s[k] == b[k - |a|]
    ensures |a| + |b| < |s| ==> s[|a| + |b|] == c[0]
    ensures s[..|a|] == a && s[|a| + |b|..] == c
  {
  }

  /** `SeparatorRun` is determined by its contract. */
  lemma {:induction false} SeparatorRunIs(s: string, i: nat, j: nat)
    requires i <= j <= |s| && (forall k :: i <= k < j ==> IsSeparator(s[k]))
    requires j < |s| ==> !IsSeparator(s[j])
    ensures SeparatorRun(s, i) == j
    decreases j - i
  {
    if i < j {
      SeparatorRunIs(s, i + 1, j);
    }
  }

  /** Glued tokens whose first token is non-empty or alone do not start with a separator. */
  lemma GlueStart(ts: seq<string>, runs: seq<string>)
    requires WellSplit(ts) && |runs| == |ts| - 1 && (ts[0] != "" || runs == [])
    ensures Interleave(ts, runs) != [] ==> !IsSeparator(Interleave(ts, runs)[0])
  {
    if ts[0] != "" && runs != [] {
      assert Interleave(ts, runs)[0] == ts[0][0];
    }
  }

  /** On glued well-formed tokens, the split finds the first token and the first run. */
  lemma GlueFirst(ts: seq<string>, runs: seq<string>, s: string)
    requires WellSplit(ts) && |runs| == |ts| - 1 && |runs| >= 1 && IsRun(runs[0])
    requires Interleave(ts, runs) == s
    ensures var n, m := |ts[0]|, |runs[0]|;
            n + m <= |s| && FindSeparator(s, 0) == n && SeparatorRun(s, n) == n + m &&
            s[..n] == ts[0] && s[n + m..] == Interleave(ts[1..], runs[1..])
  {
    var n, m := |ts[0]|, |runs[0]|;
    var rest := Interleave(ts[1..], runs[1..]);
    ThreeParts(ts[0], runs[0], rest, s);
    assert IsSeparator(s[n]) by {
      assert s[n] == runs[0][0];
    }
    FindSeparatorIs(s, 0, n);
    WellSplitTail(ts);
    assert ts[1..][0] == ts[1];
    assert runs[1..] != [] ==> ts[1] != "";
    GlueStart(ts[1..], runs[1..]);
    SeparatorRunIs(s, n, n + m);
  }

  /**
   * The split is the only well-formed one: tokens that glue back to `s` with
   * separator runs between them are `Tokens(s)`.
   */
  lemma {:induction false} TokensUnique(ts: seq<string>, runs: seq<string>, s: string)
    requires WellSplit(ts) && |runs| == |ts| - 1
    requires forall k :: 0 <= k < |runs| ==> IsRun(runs[k])
    requires Interleave(ts, runs) == s
    ensures Tokens(s) == ts
    decreases |runs|
  {
    if runs == [] {
      assert s == ts[0];
      assert FindSeparator(s, 0) == |s|;
    } else {
      var n, m := |ts[0]|, |runs[0]|;
      var rest := Interleave(ts[1..], runs[1..]);
      WellSplitTail(ts);
      forall k | 0 <= k < |runs| - 1 ensures IsRun(runs[1..][k]) {
        assert runs[1..][k] == runs[k + 1];
      }
      TokensUnique(ts[1..], runs[1..], rest);
      GlueFirst(ts, runs, s);
      SplitFirst(s, n, n + m);
      assert ts == [ts[0]] + ts[1..];
    }
  }

  lemma WellSplitTail(ts: seq<string>)
    requires WellSplit(ts) && |ts| >= 2
    ensures WellSplit(ts[1..])
  {
    forall k | 0 <= k < |ts| - 1 ensures NoSeparator(ts[1..][k]) {
      assert ts[1..][k] == ts[k + 1];
    }
  }

  // ---------------------------------------------------------------------------
  // The token tests
  // ---------------------------------------------------------------------------

  /** `token in categories`. */
  predicate IsCategory(token: string) {
    token in Categories
  }

  predicate IsDigit(c: char) {
    '0' <= c <= '9'
  }

  /** `re.fullmatch(r"\d{4}", token)`. */
  predicate IsYear(token: string) {
    |token| == 4 && forall k :: 0 <= k < 4 ==> IsDigit(token[k])
  }

  /** `re.fullmatch(r"[1-9]|1[0-2]", token)`: one of "1" to "12". */
  predicate IsMonthNumber(token: string) {
    (|token| == 1 && '1' <= token[0] <= '9') ||
    (|token| == 2 && token[0] == '1' && '0' <= token[1] <= '2')
  }

  /** `token.endswith("월") or re.fullmatch(r"[1-9]|1[0-2]", token)`. */
  predicate IsMonth(token: string) {
    (|token| > 0 && token[|token| - 1] == MonthMark) || IsMonthNumber(token)
  }

  /** `re.sub(c, "", t)`: `t` without any `c`. */
  function RemoveAll(t: string, c: char): (r: string)
    ensures c !in r
    ensures forall x :: x in r <==> x in t && x != c
    ensures c !in t ==> r == t
    ensures multiset(r) == multiset(t)[c := 0]
  {
    if t == [] then []
    else
      var rest := RemoveAll(t[1..], c);
      assert t == [t[0]] + t[1..];
      if t[0] == c then rest else [t[0]] + rest
  }

  /** Removal works character by character, so the kept characters stay in order. */
  lemma {:induction false} RemoveAllAppend(a: string, b: string, c: char)
    ensures RemoveAll(a + b, c) == RemoveAll(a, c) + RemoveAll(b, c)
  {
    if a == [] {
      assert a + b == b;
    } else {
      assert (a + b)[0] == a[0] && (a + b)[1..] == a[1..] + b;
      RemoveAllAppend(a[1..], b, c);
      if a[0] != c {
        assert [a[0]] + (RemoveAll(a[1..], c) + RemoveAll(b, c))
            == ([a[0]] + RemoveAll(a[1..], c)) + RemoveAll(b, c);
      }
    }
  }

  /** The month value stored for a month token. */
  function MonthValue(token: string): string {
    RemoveAll(token, MonthMark)
  }

  // ---------------------------------------------------------------------------
  // The scan
  // ---------------------------------------------------------------------------

  /** The three tests of the scan. */
  datatype Test = CategoryTest | YearTest | MonthTest

  predicate Passes(test: Test, token: string) {
    match test
    case CategoryTest => IsCategory(token)
    case YearTest => IsYear(token)
    case MonthTest => IsMonth(token)
  }

  /** The first position whose token passes `test`. */
  function FirstWhere(ts: seq<string>, test: Test): (r: Option<nat>)
    ensures r.None? ==> forall k :: 0 <= k < |ts| ==> !Passes(test, ts[k])
    ensures r.Some? ==> r.value < |ts| && Passes(test, ts[r.value]) &&
                        forall k :: 0 <= k < r.value ==> !Passes(test, ts[k])
  {
    if ts == [] then None
    else
      var prev := FirstWhere(ts[..|ts| - 1], test);
      assert forall k :: 0 <= k < |ts| - 1 ==> ts[..|ts| - 1][k] == ts[k];
      if prev.Some? then prev
      else if Passes(test, ts[|ts| - 1]) then Some(|ts| - 1)
      else None
  }

  /** The last position whose token passes `test`. */
  function LastWhere(ts: seq<string>, test: Test): (r: Option<nat>)
    ensures r.None? ==> forall k :: 0 <= k < |ts| ==> !Passes(test, ts[k])
    ensures r.Some? ==> r.value < |ts| && Passes(test, ts[r.value]) &&
                        forall k :: r.value < k < |ts| ==> !Passes(test, ts[k])
  {
    if ts == [] then None
    else if Passes(test, ts[|ts| - 1]) then Some(|ts| - 1)
    else
      var prev := LastWhere(ts[..|ts| - 1], test);
      assert forall k :: 0 <= k < |ts| - 1 ==> ts[..|ts| - 1][k] == ts[k];
      prev
  }

  /** The token at an optional position. */
  function TokenAt(ts: seq<string>, i: Option<nat>): Option<string>
    requires i.Some? ==> i.value < |ts|
  {
    match i
    case None => None
    case Some(k) => Some(ts[k])
  }

  /** What the scan over `tokens` leaves in the result dictionary. */
  function Summarize(tokens: seq<string>): Metadata {
    var month := LastWhere(tokens, MonthTest);
    Metadata(TokenAt(tokens, FirstWhere(tokens, CategoryTest)),
             TokenAt(tokens, FirstWhere(tokens, YearTest)),
             match month
             case None => None
             case Some(k) => Some(MonthValue(tokens[k])))
  }

  /** `classify_by_filename` as a value. */
  function Classify(filename: string): Metadata {
    Summarize(Tokens(BaseName(filename)))
  }

  /** One more token in the scan. */
  lemma ScanStep(ts: seq<string>, i: nat)
    requires i < |ts|
    ensures var before, after, t := Summarize(ts[..i]), Summarize(ts[..i + 1]), ts[i];
            && after.category == (if IsCategory(t) && before.category.None? then Some(t) else before.category)
            && after.year == (if IsYear(t) && before.year.None? then Some(t) else before.year)
            && after.month == (if IsMonth(t) then Some(MonthValue(t)) else before.month)
  {
    var next := ts[..i + 1];
    assert next[..i] == ts[..i];
    assert next[i] == ts[i];
  }

  /** `classify_by_filename`: the scan over the tokens of the base name. */
  method ClassifyByFilename(filename: string) returns (result: Metadata)
    ensures result == Classify(filename)
  {
    var baseName := BaseName(filename);
    var tokens := Tokens(baseName);
    result := Metadata(None, None, None);
    for i := 0 to |tokens|
      invariant result == Summarize(tokens[..i])
    {
      var token := tokens[i];
      ScanStep(tokens, i);
      if IsCategory(token) && result.category.None? {
        result := result.(category := Some(token));
      }
      if IsYear(token) && result.year.None? {
        result := result.(year := Some(token));
      }
      if IsMonth(token) {
        result := result.(month := Some(MonthValue(token)));
      }
    }
    assert tokens[..|tokens|] == tokens;
  }

  // ---------------------------------------------------------------------------
  // What the fields mean
  // ---------------------------------------------------------------------------

  /**
   * The category is the first token that is a known category, and there is
   * none exactly when no token is one.
   */
  lemma SummarizeCategory(ts: seq<string>)
    ensures var c := Summarize(ts).category;
            && (c.None? <==> forall k :: 0 <= k < |ts| ==> ts[k] !in Categories)
            && (c.Some? ==>
                  && c.value in Categories
                  && exists k :: 0 <= k < |ts| && ts[k] == c.value &&
                                 forall j :: 0 <= j < k ==> ts[j] !in Categories)
  {
    var i := FirstWhere(ts, CategoryTest);
    if i.Some? {
      assert Passes(CategoryTest, ts[i.value]);
      forall j | 0 <= j < i.value ensures ts[j] !in Categories {
        assert !Passes(CategoryTest, ts[j]);
      }
    } else {
      forall k | 0 <= k < |ts| ensures ts[k] !in Categories {
        assert !Passes(CategoryTest, ts[k]);
      }
    }
  }

  /**
   * The year is the first token made of exactly four digits, and there is
   * none exactly when no token is.
   */
  lemma SummarizeYear(ts: seq<string>)
    ensures var y := Summarize(ts).year;
            && (y.None? <==> forall k :: 0 <= k < |ts| ==> !IsYear(ts[k]))
            && (y.Some? ==>
                  && IsYear(y.value)
                  && exists k :: 0 <= k < |ts| && ts[k] == y.value &&
                                 forall j :: 0 <= j < k ==> !IsYear(ts[j]))
  {
    var i := FirstWhere(ts, YearTest);
    if i.Some? {
      assert Passes(YearTest, ts[i.value]);
      forall j | 0 <= j < i.value ensures !IsYear(ts[j]) {
        assert !Passes(YearTest, ts[j]);
      }
    } else {
      forall k | 0 <= k < |ts| ensures !IsYear(ts[k]) {
        assert !Passes(YearTest, ts[k]);
      }
    }
  }

  /**
   * The month comes from the LAST month token: it is that token with every
   * `월` removed, so it never contains `월`; there is none exactly when no
   * token is a month token.
   */
  lemma SummarizeMonth(ts: seq<string>)
    ensures var m := Summarize(ts).month;
            && (m.None? <==> forall k :: 0 <= k < |ts| ==> !IsMonth(ts[k]))
            && (m.Some? ==>
                  && MonthMark !in m.value
                  && exists k :: 0 <= k < |ts| && IsMonth(ts[k]) && m.value == MonthValue(ts[k]) &&
                                 forall j :: k < j < |ts| ==> !IsMonth(ts[j]))
  {
    var i := LastWhere(ts, MonthTest);
    if i.Some? {
      assert Passes(MonthTest, ts[i.value]);
      forall j | i.value < j < |ts| ensures !IsMonth(ts[j]) {
        assert !Passes(MonthTest, ts[j]);
      }
    } else {
      forall k | 0 <= k < |ts| ensures !IsMonth(ts[k]) {
        assert !Passes(MonthTest, ts[k]);
      }
    }
  }

  /** Only the last extension is cut: `BaseName(name + "." + ext) == name` for a dot-free `ext`. */
  lemma BaseNameCutsExtension(name: string, ext: string)
    requires '.' !in ext
    ensures BaseName(name + "." + ext) == name
  {
    var f := name + "." + ext;
    var b := BaseName(f);
    assert f[|name|] == '.';
  }

  /** The example of the docstring: "회의록_2023_3월.pdf". */
  lemma ClassifyExample(filename: string)
    requires filename == "회의록_2023_3월.pdf"
    ensures Classify(filename) == Metadata(Some("회의록"), Some("2023"), Some("3"))
  {
    var base := "회의록_2023_3월";
    assert filename == base + "." + "pdf";
    BaseNameCutsExtension(base, "pdf");
    var ts := ["회의록", "2023", "3월"];
    ExampleTokens(base, ts);
    ExampleSummary(ts);
  }

  lemma ExampleTokens(base: string, ts: seq<string>)
    requires base == "회의록_2023_3월" && ts == ["회의록", "2023", "3월"]
    ensures Tokens(base) == ts
  {
    assert Join(ts[2..], '_') == "3월";
    assert Join(ts[1..], '_') == "2023_3월";
    assert base == Join(ts, '_');
    assert WellSplit(ts);
    TokensJoin(ts, '_');
  }

  lemma ExampleSummary(ts: seq<string>)
    requires ts == ["회의록", "2023", "3월"]
    ensures Summarize(ts) == Metadata(Some("회의록"), Some("2023"), Some("3"))
  {
    assert IsCategory(ts[0]) && !IsYear(ts[0]) && !IsMonth(ts[0]);
    assert !IsCategory(ts[1]) && IsYear(ts[1]) && !IsMonth(ts[1]);
    assert !IsCategory(ts[2]) && !IsYear(ts[2]) && IsMonth(ts[2]);
    assert MonthValue(ts[2]) == "3";
  }
}
