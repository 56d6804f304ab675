# Verified model of the LLM-output normaliser of python-parser

The repository is a small Flask service. It downloads an exam PDF, sends the
text of its first pages to a local language model, and turns the model's
free-form answer into a list of "direction" records. Each record has the form
`{"type", "from", "to", "text"}`. This project models the two parts of
`app.py` with real logic and proves properties of them in Dafny.

- **The normaliser `extract_and_validate_json`** (app.py:55-99). It strips the
  model output and cuts out the text from the first `[` to the last `]`. It
  parses that text strictly and keeps the list items that are objects with the
  four keys and integer `from`/`to`. If the strict parse raises
  `json.JSONDecodeError`, it repairs the text once and parses it again. The
  repair deletes a `,` and any whitespace after it when a `}` or `]` follows,
  and puts bare `word:` keys in double quotes.
- **The text window of the `/all-questions` handler** (app.py:115-124, 137). It
  reads at most three pages, adds each non-empty page text plus a line break,
  and stops once the text is longer than `CHUNK_SIZE` (3000). It cuts the text
  to `CHUNK_SIZE` and builds a 200-character preview.

Modules:

- `Seqs` (seqs.dfy): `Option`, "is a subsequence of", and `Without`, which
  deletes the elements a predicate selects.
- `Text` (text.dfy): Python's `str.isspace` set, `str.strip`, `str.find` and
  `str.rfind`.
- `Repairs` (repairs.dfy): the three `re.sub` calls of app.py:92-95. Each is
  written as a left-to-right scan, the way `re.sub` runs. Each is proved equal
  to a position-by-position reference definition: which characters are deleted,
  and where a `"` is inserted.
- `RepairCases` (repair_cases.dfy): worked inputs that show how the rewrites
  behave at their edges.
- `Normalizer` (normalizer.dfy): JSON values, the validation loop, the
  candidate text, and the normaliser as a function and as a step-by-step method.
- `PageWindow` (pagewindow.dfy): the page accumulation loop, the cut to
  `CHUNK_SIZE`, and the preview.

`json.loads` is a parameter `loads: string -> LoadResult`. A call either
returns a value, raises `JSONDecodeError`, or raises something else. The model
follows app.py as written, including the places where it does less than a
caller of a "more robust JSON extraction" (app.py:56) might expect:

- Only `[` starts the candidate. A bare object such as
  `{type: "description", from:1, to:5, text:"x",}` has no `[`, so the code
  returns `[]` rather than one record
  (`Normalizer.OutputWithoutBracketsGivesEmptyList`).
- The key-quoting rewrite does not know about string literals: it also quotes
  `word:` inside string values (`RepairCases.KeyQuotingReachesIntoStrings`), so
  the repair can change the text of a direction.
- The repair path returns the re-parsed list without validating its items
  (`Normalizer.RepairPathSkipsValidation`), unlike the strict path.
- The strict path catches only `JSONDecodeError`. Any other exception from
  `json.loads` escapes the function (`Normalizer.Normalized`,
  `Outcome.Raised`). The function returns a list on every input only when
  `loads` raises nothing but decode errors
  (`Normalizer.NeverRaisesWithoutOtherErrors`).

## Model

| member | source | states |
|---|---|---|
| Text.Strip | app.py:58 | the result has no whitespace at either end (Python's `isspace` set), is empty exactly when the input is all whitespace, holds only characters of the input, and keeps every character that is not whitespace |
| Text.StripIsTheTrimmedSlice | app.py:58 | any slice of the input that has only whitespace around it and no whitespace at its ends is what `strip()` returns |
| Text.Find | app.py:61 | `find('[')` is -1 exactly when there is no `[`; otherwise it is the position of a `[` with none before it |
| Text.RFind | app.py:62 | `rfind(']')` is -1 exactly when there is no `]`; otherwise it is the position of a `]` with none after it |
| Normalizer.BracketSpan | app.py:61-67 | there is no candidate exactly when `[` or `]` is missing; a non-empty candidate starts with `[` and ends with `]` |
| Normalizer.CandidateText | app.py:58-67 | strip, then bracket span: there is no candidate exactly when the raw output lacks `[` or `]` (stripping removes neither), and a non-empty candidate starts with `[` and ends with `]` |
| Normalizer.CandidateIsBracketSpan | app.py:58-67 | the candidate is the stripped output from the first `[` through the last `]`, or empty when that `[` comes after that `]` (Python slicing) |
| Normalizer.OutputWithoutBracketsGivesEmptyList | app.py:64-65 | output with no `[` or no `]` gives `[]` whatever `json.loads` does |
| Normalizer.IsPyInt | app.py:83-84 | `isinstance(x, int)`: a JSON integer, or a JSON `true`/`false`, since Python's `bool` is a subclass of `int` |
| Normalizer.ValidItem | app.py:78-84 | the test each item must pass: an object (`dict`) with the keys `type`, `from`, `to` and `text`, whose `from` and `to` pass `IsPyInt` |
| Normalizer.FilterValid | app.py:74-86 | the value of the validation loop: never longer than its input, and every item it keeps is valid |
| Normalizer.ValidateItems | app.py:75-86 | the loop appends exactly the filtered items, in order |
| Normalizer.FilterValidIsSubsequence | app.py:76-86 | validation keeps the order of the items and does not change them |
| Normalizer.FilterValidKeepsExactlyTheValid | app.py:78-85 | each item is kept, as often as it occurs, if and only if it is an object with `type`, `from`, `to`, `text` and `int` (or `bool`) `from`/`to` |
| Normalizer.FilterValidIsWithoutInvalid | app.py:76-86 | the filter equals deleting every invalid item |
| Normalizer.FilterValidAppend | app.py:76-86 | filtering a concatenation filters each part |
| Normalizer.FilterValidIdempotent | app.py:74-86 | filtering twice equals filtering once |
| Normalizer.FilterValidUnchangedIffAllValid | app.py:74-86 | the filter returns its input unchanged exactly when every item is valid |
| Normalizer.Reparsed | app.py:96-99 | the repair path gives the re-parsed list when the second parse yields a list, and `[]` otherwise |
| Normalizer.Normalized | app.py:55-99 | no candidate gives `[]`; the call raises exactly when the strict parse raises something other than a decode error; a decode error gives the repair path's result |
| Normalizer.ExtractAndValidateJson | app.py:55-99 | the step-by-step function (strip, find, slice, strict parse, validation loop, three rewrites, second parse) ends as `Normalized` says |
| Normalizer.StrictParseKeepsValidItems | app.py:71-87 | a strict parse returns a list: for an array, an order-preserving subsequence of it that keeps exactly the valid items with their multiplicities; for any other value, `[]` |
| Normalizer.StrictListOfValidItemsIsKept | app.py:74-86 | the strict result is already filtered, and it equals the parsed array exactly when every item is valid |
| Normalizer.RepairPathSkipsValidation | app.py:96-97 | after a decode error, whatever list the second parse yields is returned unchanged, valid items or not |
| Normalizer.NeverRaisesWithoutOtherErrors | app.py:69-99 | with a `loads` that raises only decode errors, the normaliser always returns a list |
| Normalizer.CrossedBracketsGiveEmptyList | app.py:67-99 | when the first `[` follows the last `]`, the candidate is empty, and a `loads` that rejects empty text makes the result `[]` |
| Repairs.DropTrailingCommas | app.py:92-93 | `re.sub(r',\s*}', '}', s)` and `re.sub(r',\s*]', ']', s)` delete exactly the positions whose nearest non-space at or before them is `,` and whose nearest non-space after them is the closing character |
| Repairs.DropTrailingCommasFromIsReference | app.py:92-93 | the left-to-right scan, resuming after each replaced match, deletes exactly those positions |
| Repairs.RunIsDeleted | app.py:92-93 | every character of a `,`-whitespace run that ends at the closing character is deleted |
| Repairs.CloserIsKept | app.py:92-93 | the closing character that ends a match is kept |
| Repairs.DropTrailingCommasOnlyDeletesCommasAndSpaces | app.py:92-93 | the rewrite only deletes characters: its output is a subsequence of its input, and both agree once commas and whitespace are deleted |
| Repairs.QuoteKeys | app.py:95 | `re.sub(r'(\s*)(\w+)(\s*):', r'\1"\2"\3:', s)` puts a `"` before each character that starts a maximal word run followed by optional whitespace and `:`, and after each character that ends one, and changes nothing else |
| Repairs.QuoteKeysFromIsReference | app.py:95 | the left-to-right scan, resuming after each match's colon, inserts exactly those quotes |
| Repairs.MatchedWordIsKey | app.py:95 | the word a match quotes is a maximal word run followed by optional whitespace and `:` |
| Repairs.ReferenceAtMatch | app.py:95 | where the pattern matches, the output is the leading whitespace, the word in quotes, the whitespace, `:`, and the rest |
| Repairs.QuoteKeysOnlyInsertsQuotes | app.py:95 | the rewrite only inserts `"`: its input is a subsequence of its output, and deleting every `"` from both gives the same text |
| Repairs.Repair | app.py:92-95 | the three rewrites in order change only commas, whitespace and `"`: deleting those from input and output gives the same text |
| RepairCases.TrailingCommaRemovalIsOnePass | app.py:93 | one pass turns `[1,,]` into `[1,]`: a replacement is not rescanned |
| RepairCases.KeyQuotingReachesIntoStrings | app.py:95 | the key pattern ignores string literals: `"a:"` becomes `""a":"` |
| PageWindow.Contribution | app.py:118-120 | a page adds nothing exactly when `extract_text()` gave `None` or `""`; otherwise it adds its text followed by one line break |
| PageWindow.Joined | app.py:115-120 | the accumulated text of a list of pages: empty exactly when no page has text, and otherwise ending with a line break |
| PageWindow.Window | app.py:117 | `pages[:3]`: at most three pages, a prefix of the pages, all of them when there are at most three |
| PageWindow.AccumulatePages | app.py:115-122 | the text is the contributions of the first `read` pages of the window; reading stops only at the end of the window or right after the text passes `CHUNK_SIZE`, and no earlier page took it past |
| PageWindow.JoinedAppend | app.py:119-120 | the text of two page lists one after the other is the two texts concatenated |
| PageWindow.JoinedPrefix | app.py:115-122 | the text of a leading run of pages is a prefix of the text of all of them |
| PageWindow.PrefixOfLongerText | app.py:121-124 | once the text is longer than `CHUNK_SIZE`, later pages do not change its first `CHUNK_SIZE` characters |
| PageWindow.Prefix | app.py:124 | `s[:n]`: a prefix of `s` with all of `s` when it has at most `n` characters and exactly `n` characters otherwise |
| PageWindow.BuildChunk | app.py:115-137 | the chunk equals the text of all of the first three pages cut to `CHUNK_SIZE`, so the early `break` does not change it; the preview is built from that chunk |
| PageWindow.Preview | app.py:137 | the preview is the chunk when it has at most 200 characters; otherwise it is the chunk's first 200 characters followed by `...` |

## Left out

- Flask routing, request parsing, CORS, the 400 and 500 responses and `app.run` (app.py:1-17, 101-112, 134-145): HTTP plumbing.
- `requests.get` and `pdfplumber` (app.py:110-118): network and PDF-library I/O. Page texts are an input sequence of optional strings. `None` and `""` both add nothing, as Python's truth test on `page_text` has it.
- `parse_pdf_chunk_with_ollama` (app.py:21-53): a call to an external language model. Its output is the normaliser's input.
- The internals of `json.loads`: it is the parameter `loads`. JSON numbers with a fraction or an exponent stay as their literal text, and object key order is not kept (Dafny `map`).
- Normalizer.Normalized: every exception other than `JSONDecodeError` becomes one outcome, `Raised`. The exception's type and message are not modelled.
- Text.IsWordChar: the regular expression class `\w` matches every Unicode letter and digit in Python; the model accepts only ASCII letters, digits and `_`.
- `print` logging and the 500-character log cut (app.py:125, 129): diagnostics only.
- Section recognition, question and option grammar, anchor chunking and balanced-`{...}` scanning: app.py does not contain them.
