/** Worked inputs for the repair rewrites of app.py:92-95, showing how the
    regular expressions behave at their edges. */
module RepairCases {
  import opened Text
  import opened Repairs

  /** One pass of `re.sub(r',\s*]', ']', s)` removes one comma only: the
      replacement does not rescan what it produced, so `,,]` becomes `,]`. */
  lemma TrailingCommaRemovalIsOnePass(s: string)
    requires s == "[1,,]"
    ensures DropTrailingCommas(s, ']') == "[1,]"
  {
    assert SkipSpace(s, 4) == 4 && SkipSpace(s, 3) == 3;
    DropStep(s, 3, ']');
    DropStep(s, 2, ']');
    DropStep(s, 1, ']');
    DropStep(s, 0, ']');
    assert DropTrailingCommasFrom(s, 0, ']') == "[1,]";
    DropTrailingCommasIsScan(s, ']');
  }

  lemma QuotedValueHead(s: string)
    requires s == "\"a:\""
    ensures QuoteKeysFrom(s, 0) == "\"" + QuoteKeysFrom(s, 1)
  {
    assert SkipSpace(s, 0) == 0 && WordEnd(s, 0) == 0;
    ScanAtMismatch(s, 0);
  }

  lemma QuotedValueTail(s: string)
    requires s == "\"a:\""
    ensures QuoteKeysFrom(s, 3) == "\""
  {
    assert SkipSpace(s, 3) == 3 && WordEnd(s, 3) == 3;
    ScanAtMismatch(s, 3);
  }

  lemma QuotedValueMatch(s: string)
    requires s == "\"a:\""
    ensures QuoteKeysFrom(s, 1) == "\"a\":\""
  {
    assert SkipSpace(s, 1) == 1 && WordEnd(s, 1) == 2;
    assert SkipSpace(s, 2) == 2;
    ScanAtMatch(s, 1, 1, 2, 2);
    QuotedValueTail(s);
  }

  /** The key pattern does not know about string literals: a word followed by a
      colon inside a JSON string value is quoted as well, so `"a:"` becomes `""a":"`. */
  lemma KeyQuotingReachesIntoStrings(s: string)
    requires s == "\"a:\""
    ensures QuoteKeys(s) == "\"\"a\":\""
  {
    QuotedValueHead(s);
    QuotedValueMatch(s);
    QuoteKeysIsScan(s);
  }
}
