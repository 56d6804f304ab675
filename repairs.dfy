/** The repair pass applied when a strict parse fails (app.py:92-95): three
    `re.sub` rewrites, each written as the left-to-right scan `re.sub` performs
    and proved equal to a position-by-position description of what it changes. */
module Repairs {
  import opened Seqs
  import opened Text

  predicate IsCloser(c: char) {
    c == '}' || c == ']'
  }

  /** After optional whitespace from `j`, the next character is `c`. */
  predicate NextNonSpaceIs(s: string, j: nat, c: char)
    requires j <= |s|
  {
    var k := SkipSpace(s, j);
    k < |s| && s[k] == c
  }

  /** The nearest position at or before `p` that is not whitespace, or -1. */
  function LastNonSpace(s: string, p: int): (k: int)
    requires -1 <= p < |s|
    ensures -1 <= k <= p
    ensures k >= 0 ==> !IsSpace(s[k])
    ensures forall q :: k < q <= p ==> IsSpace(s[q])
    decreases p + 1
  {
    if p == -1 then -1 else if IsSpace(s[p]) then LastNonSpace(s, p - 1) else p
  }

  // ---------------------------------------------------------------------------
  // Trailing commas: re.sub(r',\s*}', '}', s) and re.sub(r',\s*]', ']', s)
  // ---------------------------------------------------------------------------

  /** Position `p` lies in a comma-plus-whitespace run that `close` follows:
      the nearest non-whitespace at or before `p` is `,` and the nearest
      non-whitespace after `p` is `close`. */
  predicate InTrailingComma(s: string, p: nat, close: char)
    requires p < |s|
  {
    var k := LastNonSpace(s, p);
    k >= 0 && s[k] == ',' && NextNonSpaceIs(s, p + 1, close)
  }

  /** Reference: the characters of `s[i..]` that lie in no trailing-comma run. */
  function KeepOutsideTrailingCommas(s: string, i: nat, close: char): string
    requires i <= |s|
    decreases |s| - i
  {
    if i == |s| then []
    else (if InTrailingComma(s, i, close) then [] else [s[i]]) + KeepOutsideTrailingCommas(s, i + 1, close)
  }

  /** The scan `re.sub(',\s*' + close, close, s[i..])` performs: at each position,
      a match (comma, whitespace, `close`) is replaced by `close` and the scan
      resumes after it; otherwise the character is copied. */
  function DropTrailingCommasFrom(s: string, i: nat, close: char): string
    requires i <= |s|
    decreases |s| - i
  {
    if i == |s| then []
    else if s[i] == ',' && NextNonSpaceIs(s, i + 1, close) then
      [close] + DropTrailingCommasFrom(s, SkipSpace(s, i + 1) + 1, close)
    else
      [s[i]] + DropTrailingCommasFrom(s, i + 1, close)
  }

  lemma LastNonSpaceInRun(s: string, i: nat, m: nat)
    requires i <= m < |s| && !IsSpace(s[i])
    requires forall q :: i < q <= m ==> IsSpace(s[q])
    ensures LastNonSpace(s, m) == i
  {
  }

  lemma SkipSpaceInRun(s: string, m: nat, j: nat)
    requires m <= j < |s| && !IsSpace(s[j])
    requires forall q :: m <= q < j ==> IsSpace(s[q])
    ensures SkipSpace(s, m) == j
  {
  }

  /** Every position from `m` up to the `close` at `j` that ends the run begun
      by the comma at `i` is deleted by the reference. */
  lemma {:induction false} RunIsDeleted(s: string, i: nat, m: nat, j: nat, close: char)
    requires IsCloser(close)
    requires i <= m <= j < |s| && s[i] == ',' && s[j] == close
    requires forall q :: i < q < j ==> IsSpace(s[q])
    ensures KeepOutsideTrailingCommas(s, m, close) == KeepOutsideTrailingCommas(s, j, close)
    decreases j - m
  {
    if m < j {
      LastNonSpaceInRun(s, i, m);
      SkipSpaceInRun(s, m + 1, j);
      assert InTrailingComma(s, m, close);
      KeepOutsideStep(s, m, close);
      RunIsDeleted(s, i, m + 1, j, close);
    }
  }

  /** A closing character never lies in a trailing-comma run. */
  lemma CloserIsKept(s: string, j: nat, close: char)
    requires IsCloser(close) && j < |s| && s[j] == close
    ensures !InTrailingComma(s, j, close)
  {
    assert LastNonSpace(s, j) == j;
  }

  /** Where the scan finds no match, the character it copies lies in no run. */
  lemma UnmatchedIsKept(s: string, i: nat, close: char)
    requires i < |s|
    requires i == 0 || !InTrailingComma(s, i - 1, close)
    requires !(s[i] == ',' && NextNonSpaceIs(s, i + 1, close))
    ensures !InTrailingComma(s, i, close)
  {
    if IsSpace(s[i]) {
      assert LastNonSpace(s, i) == LastNonSpace(s, i - 1);
      assert SkipSpace(s, i) == SkipSpace(s, i + 1);
    } else {
      assert LastNonSpace(s, i) == i;
    }
  }

  lemma KeepStep(s: string, i: nat, close: char)
    requires i < |s| && !InTrailingComma(s, i, close)
    ensures KeepOutsideTrailingCommas(s, i, close) == [s[i]] + KeepOutsideTrailingCommas(s, i + 1, close)
  {
  }

  lemma DropStep(s: string, i: nat, close: char)
    requires i < |s|
    ensures s[i] == ',' && NextNonSpaceIs(s, i + 1, close) ==>
      DropTrailingCommasFrom(s, i, close) == [close] + DropTrailingCommasFrom(s, SkipSpace(s, i + 1) + 1, close)
    ensures !(s[i] == ',' && NextNonSpaceIs(s, i + 1, close)) ==>
      DropTrailingCommasFrom(s, i, close) == [s[i]] + DropTrailingCommasFrom(s, i + 1, close)
  {
  }

  /** The scan equals the reference from every position the scan can reach:
      one not inside a trailing-comma run. */
  lemma {:induction false} DropTrailingCommasFromIsReference(s: string, i: nat, close: char)
    requires IsCloser(close) && i <= |s|
    requires i == 0 || !InTrailingComma(s, i - 1, close)
    ensures DropTrailingCommasFrom(s, i, close) == KeepOutsideTrailingCommas(s, i, close)
    decreases |s| - i, 1
  {
    if i < |s| {
      if s[i] == ',' && NextNonSpaceIs(s, i + 1, close) {
        AgreeAtTrailingComma(s, i, close);
      } else {
        AgreeOutsideTrailingComma(s, i, close);
      }
    }
  }

  lemma {:induction false} AgreeAtTrailingComma(s: string, i: nat, close: char)
    requires IsCloser(close) && i < |s| && s[i] == ',' && NextNonSpaceIs(s, i + 1, close)
    ensures DropTrailingCommasFrom(s, i, close) == KeepOutsideTrailingCommas(s, i, close)
    decreases |s| - i, 0
  {
    var j := TrailingCommaEnd(s, i, close);
    CloserIsKept(s, j, close);
    DropTrailingCommasFromIsReference(s, j + 1, close);
    KeepAtComma(s, i, j, close);
    DropAtComma(s, i, j, close);
    SameHeadSameTail(DropTrailingCommasFrom(s, i, close), KeepOutsideTrailingCommas(s, i, close),
                     DropTrailingCommasFrom(s, j + 1, close), KeepOutsideTrailingCommas(s, j + 1, close), close);
  }

  lemma SameHeadSameTail(x: string, y: string, xs: string, ys: string, c: char)
    requires x == [c] + xs && y == [c] + ys && xs == ys
    ensures x == y
  {
  }

  /** The reference deletes the comma run and keeps the `close` that ends it. */
  lemma KeepAtComma(s: string, i: nat, j: nat, close: char)
    requires IsCloser(close) && i < j < |s| && s[i] == ',' && s[j] == close
    requires forall q :: i < q < j ==> IsSpace(s[q])
    ensures KeepOutsideTrailingCommas(s, i, close) == [close] + KeepOutsideTrailingCommas(s, j + 1, close)
  {
    RunIsDeleted(s, i, i, j, close);
    CloserIsKept(s, j, close);
    KeepStep(s, j, close);
  }

  /** Where `,\s*close` matches at `i`: the position of its `close`. */
  lemma TrailingCommaEnd(s: string, i: nat, close: char) returns (j: nat)
    requires i < |s| && s[i] == ',' && NextNonSpaceIs(s, i + 1, close)
    ensures j == SkipSpace(s, i + 1) && i < j < |s| && s[j] == close
    ensures forall q :: i < q < j ==> IsSpace(s[q])
  {
    j := SkipSpace(s, i + 1);
  }

  lemma DropAtComma(s: string, i: nat, j: nat, close: char)
    requires i < j < |s| && s[i] == ',' && j == SkipSpace(s, i + 1) && s[j] == close
    ensures DropTrailingCommasFrom(s, i, close) == [close] + DropTrailingCommasFrom(s, j + 1, close)
  {
  }

  lemma {:induction false} AgreeOutsideTrailingComma(s: string, i: nat, close: char)
    requires IsCloser(close) && i < |s| && !(s[i] == ',' && NextNonSpaceIs(s, i + 1, close))
    requires i == 0 || !InTrailingComma(s, i - 1, close)
    ensures DropTrailingCommasFrom(s, i, close) == KeepOutsideTrailingCommas(s, i, close)
    decreases |s| - i, 0
  {
    UnmatchedIsKept(s, i, close);
    DropTrailingCommasFromIsReference(s, i + 1, close);
    KeepStep(s, i, close);
    DropStep(s, i, close);
  }

  /** `re.sub(r',\s*}', '}', s)` (close = '}') or `re.sub(r',\s*]', ']', s)` (close = ']'). */
  function DropTrailingCommas(s: string, close: char): (r: string)
    requires IsCloser(close)
    ensures r == KeepOutsideTrailingCommas(s, 0, close)
  {
    DropTrailingCommasFromIsReference(s, 0, close);
    DropTrailingCommasFrom(s, 0, close)
  }

  lemma DropTrailingCommasIsScan(s: string, close: char)
    requires IsCloser(close)
    ensures DropTrailingCommas(s, close) == DropTrailingCommasFrom(s, 0, close)
  {
  }

  predicate IsCommaOrSpace(c: char) {
    c == ',' || IsSpace(c)
  }

  /** Only commas and whitespace lie in trailing-comma runs. */
  lemma DeletedIsCommaOrSpace(s: string, p: nat, close: char)
    requires p < |s| && InTrailingComma(s, p, close)
    ensures IsCommaOrSpace(s[p])
  {
    if !IsSpace(s[p]) {
      assert LastNonSpace(s, p) == p;
    }
  }

  lemma {:induction false} KeepOutsideIsSubsequence(s: string, i: nat, close: char)
    requires i <= |s|
    ensures IsSubsequence(KeepOutsideTrailingCommas(s, i, close), s[i..])
    decreases |s| - i
  {
    if i == |s| {
      assert s[i..] == [];
    } else {
      var rest := KeepOutsideTrailingCommas(s, i + 1, close);
      KeepOutsideIsSubsequence(s, i + 1, close);
      assert s[i..] == [s[i]] + s[i + 1..];
      if InTrailingComma(s, i, close) {
        assert KeepOutsideTrailingCommas(s, i, close) == rest;
        SubsequenceExtendLeft(rest, s[i + 1..], [s[i]]);
      } else {
        assert KeepOutsideTrailingCommas(s, i, close) == [s[i]] + rest;
        SubsequenceReflexive([s[i]]);
        SubsequenceAppend([s[i]], [s[i]], rest, s[i + 1..]);
      }
    }
  }

  lemma KeepOutsideStep(s: string, i: nat, close: char)
    requires i < |s|
    ensures KeepOutsideTrailingCommas(s, i, close)
         == (if InTrailingComma(s, i, close) then [] else [s[i]]) + KeepOutsideTrailingCommas(s, i + 1, close)
  {
  }

  /** Deleting a comma or a space, or copying the character, leaves the same
      text once commas and whitespace are deleted. */
  lemma DeletedCopyWithout(c: char, t: string, u: string, deleted: bool)
    requires Without(u, IsCommaOrSpace) == Without(t, IsCommaOrSpace)
    requires deleted ==> IsCommaOrSpace(c)
    ensures Without((if deleted then [] else [c]) + u, IsCommaOrSpace) == Without([c] + t, IsCommaOrSpace)
  {
    WithoutAppend(if deleted then [] else [c], u, IsCommaOrSpace);
    WithoutAppend([c], t, IsCommaOrSpace);
  }

  lemma {:induction false} KeepOutsideKeepsAllButCommasAndSpaces(s: string, i: nat, close: char)
    requires i <= |s|
    ensures Without(KeepOutsideTrailingCommas(s, i, close), IsCommaOrSpace) == Without(s[i..], IsCommaOrSpace)
    decreases |s| - i
  {
    if i == |s| {
      assert s[i..] == [];
    } else {
      KeepOutsideKeepsAllButCommasAndSpaces(s, i + 1, close);
      KeepOutsideStep(s, i, close);
      SliceCons(s, i);
      if InTrailingComma(s, i, close) {
        DeletedIsCommaOrSpace(s, i, close);
      }
      DeletedCopyWithout(s[i], s[i + 1..], KeepOutsideTrailingCommas(s, i + 1, close), InTrailingComma(s, i, close));
    }
  }

  /** The trailing-comma rewrite only deletes characters, and only commas and whitespace. */
  lemma DropTrailingCommasOnlyDeletesCommasAndSpaces(s: string, close: char)
    requires IsCloser(close)
    ensures IsSubsequence(DropTrailingCommas(s, close), s)
    ensures Without(DropTrailingCommas(s, close), IsCommaOrSpace) == Without(s, IsCommaOrSpace)
  {
    KeepOutsideIsSubsequence(s, 0, close);
    KeepOutsideKeepsAllButCommasAndSpaces(s, 0, close);
    assert s[0..] == s;
  }

  // ---------------------------------------------------------------------------
  // Bare keys: re.sub(r'(\s*)(\w+)(\s*):', r'\1"\2"\3:', s)
  // ---------------------------------------------------------------------------

  /** The pattern `(\s*)(\w+)(\s*):` matches at `i`. Backtracking cannot help:
      a shorter whitespace run leaves whitespace where `\w` is needed, and a
      shorter word leaves a word character where `\s` or `:` is needed. */
  predicate KeyAt(s: string, i: nat)
    requires i <= |s|
  {
    var a := SkipSpace(s, i);
    var b := WordEnd(s, a);
    a < b && NextNonSpaceIs(s, b, ':')
  }

  /** A match's replacement: leading whitespace, the word in double quotes, the
      whitespace before the colon and the colon, followed by `rest`. */
  function QuotedMatch(s: string, i: nat, a: nat, b: nat, c: nat, rest: string): string
    requires i <= a <= b <= c <= |s|
  {
    s[i..a] + ['"'] + s[a..b] + ['"'] + s[b..c] + [':'] + rest
  }

  /** The scan `re.sub` performs on `s[i..]`: a match is rewritten with its word
      in double quotes and the scan resumes after the colon. */
  function QuoteKeysFrom(s: string, i: nat): string
    requires i <= |s|
    decreases |s| - i
  {
    if i == |s| then []
    else if KeyAt(s, i) then
      var a := SkipSpace(s, i);
      var b := WordEnd(s, a);
      var c := SkipSpace(s, b);
      QuotedMatch(s, i, a, b, c, QuoteKeysFrom(s, c + 1))
    else
      [s[i]] + QuoteKeysFrom(s, i + 1)
  }

  /** `p` starts a maximal run of word characters that optional whitespace and a colon follow. */
  predicate OpensKey(s: string, p: nat)
    requires p < |s|
  {
    IsWordChar(s[p]) && (p == 0 || !IsWordChar(s[p - 1])) && NextNonSpaceIs(s, WordEnd(s, p), ':')
  }

  /** `p` ends a maximal run of word characters that optional whitespace and a colon follow. */
  predicate ClosesKey(s: string, p: nat)
    requires p < |s|
  {
    IsWordChar(s[p]) && (p + 1 == |s| || !IsWordChar(s[p + 1])) && NextNonSpaceIs(s, p + 1, ':')
  }

  function QuoteIf(b: bool): string {
    if b then ['"'] else []
  }

  /** Reference: `s[i..]` with a `"` before every character that opens a key and
      after every character that closes one. */
  function QuoteKeysReference(s: string, i: nat): string
    requires i <= |s|
    decreases |s| - i
  {
    if i == |s| then []
    else QuoteIf(OpensKey(s, i)) + ([s[i]] + (QuoteIf(ClosesKey(s, i)) + QuoteKeysReference(s, i + 1)))
  }

  lemma ReferenceStep(s: string, i: nat)
    requires i < |s|
    ensures QuoteKeysReference(s, i) == QuoteIf(OpensKey(s, i)) + ([s[i]] + (QuoteIf(ClosesKey(s, i)) + QuoteKeysReference(s, i + 1)))
  {
  }

  lemma PlainStep(s: string, i: nat)
    requires i < |s| && !OpensKey(s, i) && !ClosesKey(s, i)
    ensures QuoteKeysReference(s, i) == [s[i]] + QuoteKeysReference(s, i + 1)
  {
    ReferenceStep(s, i);
  }

  lemma OpenStep(s: string, i: nat)
    requires i < |s| && OpensKey(s, i) && !ClosesKey(s, i)
    ensures QuoteKeysReference(s, i) == ['"'] + ([s[i]] + QuoteKeysReference(s, i + 1))
  {
    ReferenceStep(s, i);
  }

  lemma CloseStep(s: string, i: nat)
    requires i < |s| && !OpensKey(s, i) && ClosesKey(s, i)
    ensures QuoteKeysReference(s, i) == [s[i]] + (['"'] + QuoteKeysReference(s, i + 1))
  {
    ReferenceStep(s, i);
  }

  lemma OpenCloseStep(s: string, i: nat)
    requires i < |s| && OpensKey(s, i) && ClosesKey(s, i)
    ensures QuoteKeysReference(s, i) == ['"'] + ([s[i]] + (['"'] + QuoteKeysReference(s, i + 1)))
  {
    ReferenceStep(s, i);
  }

  lemma ConsSlice(s: string, i: nat, j: nat, t: string)
    requires i < j <= |s|
    ensures [s[i]] + (s[i + 1..j] + t) == s[i..j] + t
  {
    assert s[i..j] == [s[i]] + s[i + 1..j];
  }

  lemma WrapSingle(s: string, a: nat, t: string)
    requires a < |s|
    ensures ['"'] + ([s[a]] + (['"'] + t)) == ['"'] + s[a..a + 1] + ['"'] + t
  {
    assert s[a..a + 1] == [s[a]];
  }

  lemma WrapLonger(s: string, a: nat, b: nat, t: string)
    requires a + 1 < b <= |s|
    ensures ['"'] + ([s[a]] + (s[a + 1..b - 1] + ([s[b - 1]] + (['"'] + t)))) == ['"'] + s[a..b] + ['"'] + t
  {
    assert s[a..b] == [s[a]] + s[a + 1..b - 1] + [s[b - 1]];
  }

  /** Over positions that neither open nor close a key the reference copies `s`. */
  lemma {:induction false} ReferenceCopies(s: string, i: nat, j: nat)
    requires i <= j <= |s|
    requires forall p :: i <= p < j ==> !OpensKey(s, p) && !ClosesKey(s, p)
    ensures QuoteKeysReference(s, i) == s[i..j] + QuoteKeysReference(s, j)
    decreases j - i
  {
    if i < j {
      PlainStep(s, i);
      ReferenceCopies(s, i + 1, j);
      ConsSlice(s, i, j, QuoteKeysReference(s, j));
    }
  }

  /** Over a whole key word `s[a..b]` the reference wraps it in quotes. */
  lemma ReferenceQuotesWord(s: string, a: nat, b: nat)
    requires a < b <= |s|
    requires OpensKey(s, a) && ClosesKey(s, b - 1)
    requires forall k :: a <= k < b ==> IsWordChar(s[k])
    ensures QuoteKeysReference(s, a) == ['"'] + s[a..b] + ['"'] + QuoteKeysReference(s, b)
  {
    if b == a + 1 {
      OpenCloseStep(s, a);
      WrapSingle(s, a, QuoteKeysReference(s, b));
    } else {
      assert IsWordChar(s[a + 1]);
      OpenStep(s, a);
      assert IsWordChar(s[b - 2]);
      forall p | a + 1 <= p < b - 1
        ensures !OpensKey(s, p) && !ClosesKey(s, p)
      {
        assert IsWordChar(s[p - 1]) && IsWordChar(s[p + 1]);
      }
      ReferenceCopies(s, a + 1, b - 1);
      CloseStep(s, b - 1);
      WrapLonger(s, a, b, QuoteKeysReference(s, b));
    }
  }

  /** The scan reaches `i` either at the start or just after a character that is
      not part of a key word. */
  predicate ScanBoundary(s: string, i: nat)
    requires i <= |s|
  {
    i == 0 || !IsWordChar(s[i - 1]) || !NextNonSpaceIs(s, WordEnd(s, i), ':')
  }

  lemma ScanAtMatch(s: string, i: nat, a: nat, b: nat, c: nat)
    requires i < |s| && KeyAt(s, i)
    requires a == SkipSpace(s, i) && b == WordEnd(s, a) && c == SkipSpace(s, b)
    ensures QuoteKeysFrom(s, i) == QuotedMatch(s, i, a, b, c, QuoteKeysFrom(s, c + 1))
  {
  }

  lemma ScanAtMismatch(s: string, i: nat)
    requires i < |s| && !KeyAt(s, i)
    ensures QuoteKeysFrom(s, i) == [s[i]] + QuoteKeysFrom(s, i + 1)
  {
  }

  /** Whitespace and the colon are never part of a key word. */
  lemma PlainAt(s: string, p: nat)
    requires p < |s| && (IsSpace(s[p]) || s[p] == ':')
    ensures !OpensKey(s, p) && !ClosesKey(s, p)
  {
  }

  lemma PlainRun(s: string, i: nat, j: nat)
    requires i <= j <= |s|
    requires forall p :: i <= p < j ==> IsSpace(s[p]) || s[p] == ':'
    ensures forall p :: i <= p < j ==> !OpensKey(s, p) && !ClosesKey(s, p)
  {
    forall p | i <= p < j ensures !OpensKey(s, p) && !ClosesKey(s, p) {
      PlainAt(s, p);
    }
  }

  /** The word a match quotes opens and closes a key in the reference's sense. */
  lemma MatchedWordIsKey(s: string, i: nat, a: nat, b: nat)
    requires i <= |s| && ScanBoundary(s, i)
    requires a == SkipSpace(s, i) && b == WordEnd(s, a) && a < b && NextNonSpaceIs(s, b, ':')
    ensures OpensKey(s, a) && ClosesKey(s, b - 1)
  {
    if a > i {
      assert IsSpace(s[a - 1]);
    }
  }

  lemma Assemble(ri: string, ra: string, rb: string, tail: string, pre: string, word: string, gap: string, gapColon: string)
    requires ri == pre + ra
    requires ra == ['"'] + word + ['"'] + rb
    requires rb == gapColon + tail && gapColon == gap + [':']
    ensures ri == pre + ['"'] + word + ['"'] + gap + [':'] + tail
  {
  }

  lemma SliceSnoc(s: string, b: nat, c: nat)
    requires b <= c < |s|
    ensures s[b..c + 1] == s[b..c] + [s[c]]
  {
  }

  /** The whitespace and the colon after a key word are copied unchanged. */
  lemma ReferenceCopiesColon(s: string, b: nat, c: nat)
    requires b <= c < |s| && c == SkipSpace(s, b) && s[c] == ':'
    ensures QuoteKeysReference(s, b) == s[b..c + 1] + QuoteKeysReference(s, c + 1)
    ensures s[b..c + 1] == s[b..c] + [':']
  {
    PlainRun(s, b, c + 1);
    ReferenceCopies(s, b, c + 1);
    SliceSnoc(s, b, c);
  }

  /** Where the pattern matches, the reference quotes the same word. */
  lemma ReferenceAtMatch(s: string, i: nat, a: nat, b: nat, c: nat)
    requires i < |s| && ScanBoundary(s, i)
    requires a == SkipSpace(s, i) && b == WordEnd(s, a) && a < b
    requires c == SkipSpace(s, b) && c < |s| && s[c] == ':'
    ensures QuoteKeysReference(s, i)
         == QuotedMatch(s, i, a, b, c, QuoteKeysReference(s, c + 1))
  {
    PlainRun(s, i, a);
    ReferenceCopies(s, i, a);
    MatchedWordIsKey(s, i, a, b);
    ReferenceQuotesWord(s, a, b);
    ReferenceCopiesColon(s, b, c);
    Assemble(QuoteKeysReference(s, i), QuoteKeysReference(s, a), QuoteKeysReference(s, b),
             QuoteKeysReference(s, c + 1), s[i..a], s[a..b], s[b..c], s[b..c + 1]);
  }

  /** Where the pattern does not match, the reference adds no quote around the
      copied character, and the next position is again a boundary. */
  lemma ReferenceAtMismatch(s: string, i: nat)
    requires i < |s| && !KeyAt(s, i) && ScanBoundary(s, i)
    ensures QuoteKeysReference(s, i) == [s[i]] + QuoteKeysReference(s, i + 1)
    ensures ScanBoundary(s, i + 1)
  {
    assert !OpensKey(s, i);
    if IsWordChar(s[i]) && (i + 1 == |s| || !IsWordChar(s[i + 1])) {
      assert WordEnd(s, i + 1) == i + 1;
    }
    assert !ClosesKey(s, i);
    if i + 1 < |s| && IsWordChar(s[i]) && IsWordChar(s[i + 1]) {
      assert WordEnd(s, i) == WordEnd(s, i + 1);
    }
    ReferenceStep(s, i);
  }

  /** Where the pattern matches at `i`: the bounds of its three groups, and the
      scan resumes at a boundary. */
  lemma MatchBounds(s: string, i: nat) returns (a: nat, b: nat, c: nat)
    requires i < |s| && KeyAt(s, i)
    ensures a == SkipSpace(s, i) && b == WordEnd(s, a) && c == SkipSpace(s, b)
    ensures i <= a < b <= c < |s| && s[c] == ':'
    ensures ScanBoundary(s, c + 1)
  {
    a := SkipSpace(s, i);
    b := WordEnd(s, a);
    c := SkipSpace(s, b);
    assert !IsWordChar(s[c]);
  }

  lemma {:induction false} AgreeAtMatch(s: string, i: nat)
    requires i < |s| && KeyAt(s, i) && ScanBoundary(s, i)
    ensures QuoteKeysFrom(s, i) == QuoteKeysReference(s, i)
    decreases |s| - i, 0
  {
    var a, b, c := MatchBounds(s, i);
    QuoteKeysFromIsReference(s, c + 1);
    ScanAtMatch(s, i, a, b, c);
    ReferenceAtMatch(s, i, a, b, c);
  }

  lemma {:induction false} AgreeAtMismatch(s: string, i: nat)
    requires i < |s| && !KeyAt(s, i) && ScanBoundary(s, i)
    ensures QuoteKeysFrom(s, i) == QuoteKeysReference(s, i)
    decreases |s| - i, 0
  {
    ReferenceAtMismatch(s, i);
    QuoteKeysFromIsReference(s, i + 1);
    ScanAtMismatch(s, i);
  }

  /** The scan equals the reference from every position the scan can reach. */
  lemma {:induction false} QuoteKeysFromIsReference(s: string, i: nat)
    requires i <= |s| && ScanBoundary(s, i)
    ensures QuoteKeysFrom(s, i) == QuoteKeysReference(s, i)
    decreases |s| - i, 1
  {
    if i < |s| {
      if KeyAt(s, i) {
        AgreeAtMatch(s, i);
      } else {
        AgreeAtMismatch(s, i);
      }
    }
  }

  /** `re.sub(r'(\s*)(\w+)(\s*):', r'\1"\2"\3:', s)`. */
  function QuoteKeys(s: string): (r: string)
    ensures r == QuoteKeysReference(s, 0)
  {
    QuoteKeysFromIsReference(s, 0);
    QuoteKeysFrom(s, 0)
  }

  lemma QuoteKeysIsScan(s: string)
    ensures QuoteKeys(s) == QuoteKeysFrom(s, 0)
  {
  }

  predicate IsQuote(c: char) {
    c == '"'
  }

  /** Quotes around one copied character keep the copy a subsequence. */
  lemma QuotedCopyIsSupersequence(c: char, t: string, u: string, before: bool, after: bool)
    requires IsSubsequence(t, u)
    ensures IsSubsequence([c] + t, QuoteIf(before) + ([c] + (QuoteIf(after) + u)))
  {
    SubsequenceReflexive([c]);
    SubsequenceExtendLeft(t, u, QuoteIf(after));
    SubsequenceAppend([c], [c], t, QuoteIf(after) + u);
    SubsequenceExtendLeft([c] + t, [c] + (QuoteIf(after) + u), QuoteIf(before));
  }

  /** Quotes around one copied character vanish once quotes are deleted. */
  lemma QuotedCopyWithoutQuotes(c: char, t: string, u: string, before: bool, after: bool)
    requires Without(u, IsQuote) == Without(t, IsQuote)
    ensures Without(QuoteIf(before) + ([c] + (QuoteIf(after) + u)), IsQuote) == Without([c] + t, IsQuote)
  {
    WithoutAppend(QuoteIf(before), [c] + (QuoteIf(after) + u), IsQuote);
    WithoutAppend([c], QuoteIf(after) + u, IsQuote);
    WithoutAppend(QuoteIf(after), u, IsQuote);
    WithoutAppend([c], t, IsQuote);
  }

  lemma SliceCons(s: string, i: nat)
    requires i < |s|
    ensures s[i..] == [s[i]] + s[i + 1..]
  {
  }

  lemma {:induction false} ReferenceIsSupersequence(s: string, i: nat)
    requires i <= |s|
    ensures IsSubsequence(s[i..], QuoteKeysReference(s, i))
    decreases |s| - i
  {
    if i == |s| {
      assert s[i..] == [];
    } else {
      ReferenceIsSupersequence(s, i + 1);
      ReferenceStep(s, i);
      SliceCons(s, i);
      QuotedCopyIsSupersequence(s[i], s[i + 1..], QuoteKeysReference(s, i + 1), OpensKey(s, i), ClosesKey(s, i));
    }
  }

  lemma {:induction false} ReferenceWithoutQuotes(s: string, i: nat)
    requires i <= |s|
    ensures Without(QuoteKeysReference(s, i), IsQuote) == Without(s[i..], IsQuote)
    decreases |s| - i
  {
    if i == |s| {
      assert s[i..] == [];
    } else {
      ReferenceWithoutQuotes(s, i + 1);
      ReferenceStep(s, i);
      SliceCons(s, i);
      QuotedCopyWithoutQuotes(s[i], s[i + 1..], QuoteKeysReference(s, i + 1), OpensKey(s, i), ClosesKey(s, i));
    }
  }

  /** The key-quoting rewrite only inserts `"` characters: the input is a
      subsequence of the output, and deleting every `"` from both gives the same text. */
  lemma QuoteKeysOnlyInsertsQuotes(s: string)
    ensures IsSubsequence(s, QuoteKeys(s))
    ensures Without(QuoteKeys(s), IsQuote) == Without(s, IsQuote)
  {
    ReferenceIsSupersequence(s, 0);
    ReferenceWithoutQuotes(s, 0);
    assert s[0..] == s;
  }

  // ---------------------------------------------------------------------------
  // The whole repair
  // ---------------------------------------------------------------------------

  /** Characters the repair may delete (commas, whitespace) or insert (`"`). */
  predicate IsRepairable(c: char) {
    c == '"' || c == ',' || IsSpace(c)
  }

  /** The three rewrites of app.py:92-95, in their order. */
  function Repair(s: string): (r: string)
    ensures Without(r, IsRepairable) == Without(s, IsRepairable)
  {
    var noBraceCommas := DropTrailingCommas(s, '}');
    var noBracketCommas := DropTrailingCommas(noBraceCommas, ']');
    var r := QuoteKeys(noBracketCommas);
    DropTrailingCommasOnlyDeletesCommasAndSpaces(s, '}');
    DropTrailingCommasOnlyDeletesCommasAndSpaces(noBraceCommas, ']');
    QuoteKeysOnlyInsertsQuotes(noBracketCommas);
    WithoutAbsorbs(r, IsQuote, IsRepairable);
    WithoutAbsorbs(noBracketCommas, IsQuote, IsRepairable);
    WithoutAbsorbs(noBracketCommas, IsCommaOrSpace, IsRepairable);
    WithoutAbsorbs(noBraceCommas, IsCommaOrSpace, IsRepairable);
    WithoutAbsorbs(s, IsCommaOrSpace, IsRepairable);
    r
  }
}
