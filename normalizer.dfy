/** The normaliser of generated text, `extract_and_validate_json`: it cuts the
    bracketed candidate out of the text, parses it strictly and keeps the
    well-formed direction items, or repairs the text once and parses it again. */
module Normalizer {
  import opened Seqs
  import opened Text
  import opened Repairs

  /** A JSON value as Python's `json.loads` produces it. Numbers with a fraction
      or an exponent are kept as their literal text; object key order is not kept. */
  datatype Json =
    | JNull
    | JBool(b: bool)
    | JInt(i: int)
    | JFloat(literal: string)
    | JString(s: string)
    | JArray(elems: seq<Json>)
    | JObject(fields: map<string, Json>)

  /** What a call of `json.loads` does: it returns a value, raises
      `json.JSONDecodeError`, or raises some other exception (a `RecursionError`
      on deeply nested input, for instance). */
  datatype LoadResult = Parsed(value: Json) | DecodeError | OtherError

  /** How a call of the normaliser ends: it returns a list, or an exception
      propagates to its caller. */
  datatype Outcome = Returned(items: seq<Json>) | Raised

  /** `isinstance(v, int)`: Python's `bool` is a subclass of `int`. */
  predicate IsPyInt(v: Json) {
    v.JInt? || v.JBool?
  }

  /** A direction item: an object with `type`, `from`, `to` and `text` keys whose
      `from` and `to` are integers. */
  predicate ValidItem(v: Json) {
    && v.JObject?
    && "type" in v.fields
    && "from" in v.fields
    && "to" in v.fields
    && "text" in v.fields
    && IsPyInt(v.fields["from"])
    && IsPyInt(v.fields["to"])
  }

  predicate Invalid(v: Json) {
    !ValidItem(v)
  }

  /** The valid items of `s`, in order: what the validation loop appends. */
  function FilterValid(s: seq<Json>): (r: seq<Json>)
    ensures |r| <= |s|
    ensures forall k :: 0 <= k < |r| ==> ValidItem(r[k])
    decreases |s|
  {
    if s == [] then []
    else FilterValid(s[..|s| - 1]) + (if ValidItem(s[|s| - 1]) then [s[|s| - 1]] else [])
  }

  lemma FilterValidStep(s: seq<Json>)
    requires s != []
    ensures FilterValid(s) == FilterValid(s[..|s| - 1]) + (if ValidItem(s[|s| - 1]) then [s[|s| - 1]] else [])
  {
  }

  lemma SnocLast<T>(s: seq<T>)
    requires s != []
    ensures s[..|s| - 1] + [s[|s| - 1]] == s
  {
  }

  /** The validation loop of the strict path. */
  method ValidateItems(parsed: seq<Json>) returns (validated: seq<Json>)
    ensures validated == FilterValid(parsed)
  {
    validated := [];
    for i := 0 to |parsed|
      invariant validated == FilterValid(parsed[..i])
    {
      assert parsed[..i + 1][..i] == parsed[..i];
      if ValidItem(parsed[i]) {
        validated := validated + [parsed[i]];
      }
    }
    assert parsed[..|parsed|] == parsed;
  }

  lemma {:induction false} FilterValidAppend(a: seq<Json>, b: seq<Json>)
    ensures FilterValid(a + b) == FilterValid(a) + FilterValid(b)
    decreases |b|
  {
    if b == [] {
      assert a + b == a;
    } else {
      var init := b[..|b| - 1];
      var last := if ValidItem(b[|b| - 1]) then [b[|b| - 1]] else [];
      assert (a + b)[..|a + b| - 1] == a + init;
      FilterValidAppend(a, init);
    }
  }

  /** The filter agrees with the generic "drop what fails" of `Seqs`. */
  lemma {:induction false} FilterValidIsWithoutInvalid(s: seq<Json>)
    ensures FilterValid(s) == Without(s, Invalid)
    decreases |s|
  {
    if s != [] {
      FilterValidIsWithoutInvalid(s[1..]);
      FilterValidAppend([s[0]], s[1..]);
      assert FilterValid([s[0]]) == if ValidItem(s[0]) then [s[0]] else [] by {
        assert [s[0]][..0] == [];
      }
      assert [s[0]] + s[1..] == s;
    }
  }

  /** Validation keeps the order of the items and does not change them. */
  lemma {:induction false} FilterValidIsSubsequence(s: seq<Json>)
    ensures IsSubsequence(FilterValid(s), s)
    decreases |s|
  {
    if s != [] {
      var init := s[..|s| - 1];
      var lastSeq := [s[|s| - 1]];
      FilterValidIsSubsequence(init);
      if ValidItem(s[|s| - 1]) {
        SubsequenceReflexive(lastSeq);
        SubsequenceAppend(FilterValid(init), init, lastSeq, lastSeq);
      } else {
        SubsequenceAppend(FilterValid(init), init, [], lastSeq);
        assert FilterValid(init) + [] == FilterValid(init);
      }
      assert init + lastSeq == s;
    }
  }

  /** An item is kept, as often as it occurs, if and only if it is valid. */
  lemma {:induction false} FilterValidKeepsExactlyTheValid(s: seq<Json>, x: Json)
    ensures multiset(FilterValid(s))[x] == if ValidItem(x) then multiset(s)[x] else 0
    decreases |s|
  {
    if s != [] {
      var init := s[..|s| - 1];
      FilterValidKeepsExactlyTheValid(init, x);
      assert s == init + [s[|s| - 1]];
    }
  }

  /** Every kept item is valid, so validating twice is validating once. */
  lemma {:induction false} FilterValidIdempotent(s: seq<Json>)
    ensures FilterValid(FilterValid(s)) == FilterValid(s)
    decreases |s|
  {
    if s != [] {
      var init := s[..|s| - 1];
      FilterValidIdempotent(init);
      var last := if ValidItem(s[|s| - 1]) then [s[|s| - 1]] else [];
      FilterValidAppend(FilterValid(init), last);
      if ValidItem(s[|s| - 1]) {
        assert FilterValid(last) == last by { assert last[..0] == []; }
      }
    }
  }

  lemma {:induction false} FilterValidOfAllValid(s: seq<Json>)
    requires forall k :: 0 <= k < |s| ==> ValidItem(s[k])
    ensures FilterValid(s) == s
    decreases |s|
  {
    if s != [] {
      var init := s[..|s| - 1];
      assert forall k :: 0 <= k < |init| ==> ValidItem(init[k]);
      FilterValidOfAllValid(init);
      FilterValidStep(s);
      SnocLast(s);
    }
  }

  lemma UnchangedMeansAllValid(s: seq<Json>, k: nat)
    requires FilterValid(s) == s && k < |s|
    ensures ValidItem(s[k])
  {
    FilterValidKeepsExactlyTheValid(s, s[k]);
    assert s[k] in multiset(s);
  }

  /** The filter returns its input exactly when every item is valid. */
  lemma FilterValidUnchangedIffAllValid(s: seq<Json>)
    ensures FilterValid(s) == s <==> forall k :: 0 <= k < |s| ==> ValidItem(s[k])
  {
    if forall k :: 0 <= k < |s| ==> ValidItem(s[k]) {
      FilterValidOfAllValid(s);
    }
    forall k | 0 <= k < |s| && FilterValid(s) == s
      ensures ValidItem(s[k])
    {
      UnchangedMeansAllValid(s, k);
    }
  }

  // ---------------------------------------------------------------------------
  // The candidate text: app.py:58-67
  // ---------------------------------------------------------------------------

  /** The text between the first `[` and the last `]` of `cleaned`, both
      included, or None when one of them is missing. Python's slice
      `cleaned[start:end + 1]` is empty when the first `[` lies after the last `]`. */
  function BracketSpan(cleaned: string): (r: Option<string>)
    ensures r.None? <==> '[' !in cleaned || ']' !in cleaned
    ensures r.Some? && r.value != [] ==> r.value[0] == '[' && r.value[|r.value| - 1] == ']'
  {
    var start := Find(cleaned, '[');
    var end := RFind(cleaned, ']');
    if start == -1 || end == -1 then None
    else if start <= end then Some(cleaned[start..end + 1])
    else Some([])
  }

  /** The candidate JSON text of app.py:58-67: the bracket span of the stripped output. */
  function CandidateText(output: string): (r: Option<string>)
    ensures r.None? <==> '[' !in output || ']' !in output
    ensures r.Some? && r.value != [] ==> r.value[0] == '[' && r.value[|r.value| - 1] == ']'
  {
    BracketSpan(Strip(output))
  }

  /** The candidate is the span from the first `[` to the last `]`: given any
      position holding a `[` with none before it and any position holding a `]`
      with none after it, the candidate is the text between them. */
  lemma CandidateIsBracketSpan(output: string, first: nat, last: nat)
    requires first < |Strip(output)| && Strip(output)[first] == '['
    requires forall k :: 0 <= k < first ==> Strip(output)[k] != '['
    requires last < |Strip(output)| && Strip(output)[last] == ']'
    requires forall k :: last < k < |Strip(output)| ==> Strip(output)[k] != ']'
    ensures first <= last ==> CandidateText(output) == Some(Strip(output)[first..last + 1])
    ensures first > last ==> CandidateText(output) == Some([])
  {
    BracketSpanIsSlice(Strip(output), first, last);
  }

  lemma BracketSpanIsSlice(cleaned: string, first: nat, last: nat)
    requires first < |cleaned| && cleaned[first] == '['
    requires forall k :: 0 <= k < first ==> cleaned[k] != '['
    requires last < |cleaned| && cleaned[last] == ']'
    requires forall k :: last < k < |cleaned| ==> cleaned[k] != ']'
    ensures first <= last ==> BracketSpan(cleaned) == Some(cleaned[first..last + 1])
    ensures first > last ==> BracketSpan(cleaned) == Some([])
  {
    assert cleaned[first] in cleaned && cleaned[last] in cleaned;
  }

  // ---------------------------------------------------------------------------
  // The two parse attempts: app.py:69-99
  // ---------------------------------------------------------------------------

  /** The repair path: the repaired text parsed again, returned unvalidated when
      it is a list, `[]` when it is not a list or raises anything. */
  function Reparsed(candidate: string, loads: string -> LoadResult): (r: seq<Json>)
    ensures var second := loads(Repair(candidate));
            if second.Parsed? && second.value.JArray? then r == second.value.elems else r == []
  {
    match loads(Repair(candidate))
    case Parsed(JArray(elems)) => elems
    case _ => []
  }

  /** What `extract_and_validate_json(output)` does, given `json.loads` as `loads`. */
  function Normalized(output: string, loads: string -> LoadResult): (r: Outcome)
    ensures CandidateText(output).None? ==> r == Returned([])
    ensures r.Raised? <==> CandidateText(output).Some? && loads(CandidateText(output).value).OtherError?
    ensures CandidateText(output).Some? && loads(CandidateText(output).value).DecodeError? ==>
              r == Returned(Reparsed(CandidateText(output).value, loads))
  {
    match CandidateText(output)
    case None => Returned([])
    case Some(candidate) =>
      match loads(candidate)
      case Parsed(v) =>
        if v.JArray? then Returned(FilterValid(v.elems)) else Returned([])
      case DecodeError => Returned(Reparsed(candidate, loads))
      case OtherError => Raised
  }

  /** `extract_and_validate_json`, step by step as app.py:55-99 runs it. */
  method ExtractAndValidateJson(output: string, loads: string -> LoadResult) returns (r: Outcome)
    ensures r == Normalized(output, loads)
  {
    var cleaned := Strip(output);
    var startIdx := Find(cleaned, '[');
    var endIdx := RFind(cleaned, ']');
    if startIdx == -1 || endIdx == -1 {
      return Returned([]);
    }
    var jsonStr := if startIdx <= endIdx then cleaned[startIdx..endIdx + 1] else [];
    assert CandidateText(output) == Some(jsonStr);
    var strict := loads(jsonStr);
    match strict {
      case Parsed(parsed) =>
        if parsed.JArray? {
          var validatedItems := ValidateItems(parsed.elems);
          return Returned(validatedItems);
        }
        return Returned([]);
      case DecodeError =>
        ghost var candidate := jsonStr;
        jsonStr := DropTrailingCommas(jsonStr, '}');
        jsonStr := DropTrailingCommas(jsonStr, ']');
        jsonStr := QuoteKeys(jsonStr);
        assert jsonStr == Repair(candidate);
        var repaired := loads(jsonStr);
        if repaired.Parsed? && repaired.value.JArray? {
          return Returned(repaired.value.elems);
        }
        return Returned([]);
      case OtherError =>
        return Raised;
    }
  }

  /** Only an exception other than a decode error in the strict parse escapes:
      with a `loads` that raises nothing else, the normaliser always returns a list. */
  lemma NeverRaisesWithoutOtherErrors(output: string, loads: string -> LoadResult)
    requires forall t :: !loads(t).OtherError?
    ensures Normalized(output, loads).Returned?
  {
  }

  /** A strict parse returns a list: for a JSON array, its valid items in their
      order and unchanged, each as often as it occurs; for any other value, `[]`. */
  lemma StrictParseKeepsValidItems(output: string, loads: string -> LoadResult, v: Json)
    requires CandidateText(output).Some? && loads(CandidateText(output).value) == Parsed(v)
    ensures Normalized(output, loads).Returned?
    ensures !v.JArray? ==> Normalized(output, loads).items == []
    ensures v.JArray? ==> IsSubsequence(Normalized(output, loads).items, v.elems)
    ensures v.JArray? ==> forall x :: multiset(Normalized(output, loads).items)[x] == if ValidItem(x) then multiset(v.elems)[x] else 0
  {
    if v.JArray? {
      FilterValidIsSubsequence(v.elems);
      forall x ensures multiset(Normalized(output, loads).items)[x] == if ValidItem(x) then multiset(v.elems)[x] else 0 {
        FilterValidKeepsExactlyTheValid(v.elems, x);
      }
    }
  }

  /** A strict parse that yields a list of valid items returns that list unchanged,
      and normalising is stable: the result of a strict parse is already filtered. */
  lemma StrictListOfValidItemsIsKept(output: string, loads: string -> LoadResult)
    requires CandidateText(output).Some?
    requires loads(CandidateText(output).value).Parsed?
    requires loads(CandidateText(output).value).value.JArray?
    ensures var elems := loads(CandidateText(output).value).value.elems;
            && FilterValid(Normalized(output, loads).items) == Normalized(output, loads).items
            && ((forall k :: 0 <= k < |elems| ==> ValidItem(elems[k])) <==> Normalized(output, loads).items == elems)
  {
    var elems := loads(CandidateText(output).value).value.elems;
    FilterValidIdempotent(elems);
    FilterValidUnchangedIffAllValid(elems);
  }

  /** The repair path does not validate: whatever list the second parse gives
      is returned as it is, valid items or not. */
  lemma RepairPathSkipsValidation(output: string, loads: string -> LoadResult, elems: seq<Json>)
    requires CandidateText(output).Some?
    requires loads(CandidateText(output).value).DecodeError?
    requires loads(Repair(CandidateText(output).value)) == Parsed(JArray(elems))
    ensures Normalized(output, loads) == Returned(elems)
  {
  }

  /** Output with no `[` or no `]` anywhere, such as a bare JSON object, gives
      `[]` on the first check: the repair is never reached. */
  lemma OutputWithoutBracketsGivesEmptyList(output: string, loads: string -> LoadResult)
    requires '[' !in output || ']' !in output
    ensures Normalized(output, loads) == Returned([])
  {
  }

  /** When the first `[` comes after the last `]` the candidate is the empty
      text; a `loads` that rejects the empty text as a decode error then makes
      the normaliser return `[]` (the repair leaves the empty text empty). */
  lemma CrossedBracketsGiveEmptyList(output: string, loads: string -> LoadResult)
    requires CandidateText(output) == Some([])
    requires loads([]) == DecodeError
    ensures Normalized(output, loads) == Returned([])
  {
    assert Repair([]) == [];
  }
}
