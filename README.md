# Gov_rag eligibility core, in Dafny

Gov_rag answers a citizen's question about government schemes. It
evaluates the citizen's profile against each scheme's eligibility rules and
explains the verdict. This project models the deterministic core of that
system:

- **Rules** (`rules.dfy`, eligibility/rules.py): an atomic rule compares one
  profile field with a literal using `<=`, `>=`, `==` or `in`. It answers true,
  false or unknown, and it answers unknown when the field is missing. A rule set
  evaluates every rule with no early exit and collects the fields of the unknown
  rules. It then labels the scheme NOT_ELIGIBLE, INSUFFICIENT_INFO or ELIGIBLE,
  in that priority, and returns the missing fields sorted and de-duplicated.
  The loop is a method proved equal to a specification function.
- **Engine** (`engine.dfy`, eligibility/engine.py): one verdict per registered
  rule set, in registration order. The engine's list of rule sets is set once
  and never changed, so the engine is a value and `evaluate_profile` is a
  function. Repeated calls on the same profile therefore give the same verdicts
  by construction.
- **Server** (`server.dfy`, api/server.py): the response loop of the `/query`
  handler. Each rule result is rendered as `"{description} [ok|fail|unknown]"`,
  the segments are joined with `" | "`, and there is one response result per
  verdict. This module also holds the profile dictionary the handler builds
  from the request and the demo scheme the handler registers at startup.
- **Chunking** (`chunking.dfy`, ingestion/chunking.py): the section text is
  cut into sentences at '.', and the sentences are grouped greedily. A
  sentence joins the open buffer unless the buffer is non-empty and would grow
  past `max_chars`, counting 2 for each separator. A chunk of several sentences
  is therefore at most `max_chars + 1` characters long with its closing '.',
  and a sentence longer than `max_chars` forms a chunk of its own. The ids are
  consecutive: `{section_id}_c1`, `_c2`, and so on. The grouping loop is a
  method whose result is the chunks of the buffers computed by the function
  `Grouping`.
- **Downloader** (`downloader.dfy`, ingestion/downloader.py): the test that
  decides whether a link points to a PDF, and the cleaning of a decoded file
  name.
- **Metrics** (`metrics.dfy`, evaluation/metrics.py): the label accuracy over
  the predictions that have a gold label, as an exact fraction.
- **PyText** (`pytext.dfy`): the Python string built-ins the code relies on.
  These are `join`, `split` on one character, `strip()` and `strip("_")`,
  ASCII `lower`, `endswith`, `str(n)`, code-point ordering of strings and
  `sorted(set(...))`.

Profiles are maps from field name to a `Value`: `Int`, `Bool`, `Str`, `List`
or `NoneVal`. A field is missing exactly when its key is absent. Python's
`True == 1` and its numeric ordering of `bool` are modelled. A comparison that
would raise `TypeError` is excluded by a precondition: `WellTyped` for a rule,
`AllWellTyped` for a rule set, `Accepts` for the engine.

An operator that is no `Comparison` member falls through to `return None`
(eligibility/rules.py:41), so it is not rejected. `Comparison`
is a `str` enum (eligibility/rules.py:8), so a plain string "<=", ">=", "==" or
"in" stored as the operator compares equal to its member and is evaluated as
that member (`AsMember`). Any other `Unrecognised(tag)` operator gives unknown,
the same as a missing field.

## Model

| member | source | states |
|---|---|---|
| Rules.AsMember | eligibility/rules.py:8-12 | Definition of the enum member an operator compares equal to. A plain "<=", ">=", "==" or "in" is that member, as for a `str` enum. The operator rows below are about it. |
| Rules.AsMemberIff | eligibility/rules.py:8-12 | An operator is taken as a member exactly when it is that member or the member's string value. Only other strings stay unrecognised. |
| Rules.PyEq | eligibility/rules.py:37-38 | Definition of Python `==` on the modelled values. Numbers and bools compare numerically, strings by equality, lists element by element, and `None` equals only `None`. The `==` rows are about it. |
| Rules.PyLe | eligibility/rules.py:33-36 | Definition of Python `<=`: numeric for numbers, code-point order for strings. The ordering rows are about it. |
| Rules.PyIn | eligibility/rules.py:39-40 | Definition of Python `in`: `==`-membership for a list, substring for a string. The `in` rows are about it. |
| Rules.Evaluate | eligibility/rules.py:29-41 | The outcome is unknown exactly when the field is absent from the profile or the operator is none of the four members. |
| Rules.PlainStringOperator | eligibility/rules.py:33-41 | A rule whose operator is the plain string "<=" compares like `Comparison.LTE`. An operator "<" gives unknown. |
| Rules.MissingFieldIsUnknown | eligibility/rules.py:30-31 | An absent field gives unknown for every operator and literal, and never raises. |
| Rules.EvaluatePresent | eligibility/rules.py:32-40 | With the field present, an operator taken as LTE gives `v <= value` and one taken as GTE gives `v >= value`, numerically for numbers and by code point for strings. EQ gives Python `==`. IN on a list gives `==`-membership, and IN on a string literal gives a substring test of the profile's string. |
| Rules.EvaluateLocal | eligibility/rules.py:29-41 | Only the rule's own field matters. Profiles that agree on it get the same outcome. |
| Rules.OrderRulesCoverAll | eligibility/rules.py:33-36 | An orderable value satisfies `<= c` or `>= c`. It satisfies both exactly when it equals `c`. |
| Rules.InSingletonIsEq | eligibility/rules.py:39-40 | `v in [c]` holds exactly when `v == c`. |
| Rules.PyEqReflexive | eligibility/rules.py:37-38 | Python `==` on the modelled values is reflexive, lists included. |
| Rules.EvaluateRuleSet | eligibility/rules.py:50-72 | Definition of a rule set's verdict. `RuleSetEvaluate` is proved equal to it, and the rule-set rows are about it. |
| Rules.LabelFor | eligibility/rules.py:59-64 | Definition of the label chosen from the results and the missing list. `LabelPriority` states it. |
| Rules.RuleResults | eligibility/rules.py:53-57 | `results` has one entry per rule, in rule order, each pairing the rule with its own outcome. |
| Rules.Missing | eligibility/rules.py:54-56 | A field is in `missing` exactly when some result for that field is unknown. |
| Rules.RuleSetEvaluate | eligibility/rules.py:50-72 | The loop over all rules, then the label and the sorted missing fields, returns exactly `EvaluateRuleSet`. |
| Rules.VerdictShape | eligibility/rules.py:51-72 | The scheme id and the provenance pass through unchanged. `results` pairs rule k with its outcome, for every k. |
| Rules.LabelPriority | eligibility/rules.py:59-64 | NOT_ELIGIBLE iff some rule is false. INSUFFICIENT_INFO iff no rule is false and some rule is unknown. ELIGIBLE iff every rule is true, which includes the empty rule set. |
| Rules.MissingNonEmptyIff | eligibility/rules.py:55-61 | The missing list is non-empty exactly when some result is unknown. |
| Rules.MissingFieldsExact | eligibility/rules.py:54-70 | `missing_fields` is strictly sorted, so it has no repeats. As a set it equals the fields of the rules that evaluated to unknown. |
| Rules.LabelByOccurs | eligibility/rules.py:59-64 | The label as a function of whether a false outcome and an unknown outcome occur. |
| Rules.VerdictIgnoresRuleOrder | eligibility/rules.py:50-72 | Two rule sets with the same rules get the same label and the same `missing_fields`, whatever the order or repetition of the rules. |
| Rules.SameRulesSameMissing | eligibility/rules.py:70 | The same rules, in any order, give the same `missing_fields`. |
| Rules.DefiniteVerdictStable | eligibility/rules.py:50-64 | Adding fields to a profile never reverses NOT_ELIGIBLE or ELIGIBLE. |
| PyText.SortedDistinct | eligibility/rules.py:70 | `sorted(set(xs))` is strictly sorted and has exactly the elements of `xs`. |
| PyText.StrictlySortedUnique | eligibility/rules.py:70 | A strictly sorted list is determined by its set of elements. |
| PyText.StrLtTrichotomy | eligibility/rules.py:33-36 | Any two strings are equal or ordered one way by code point. |
| PyText.StrLtTransitive | eligibility/rules.py:33-36 | Code-point order on strings is transitive. |
| Engine.EvaluateAll | eligibility/engine.py:17 | Definition of the list comprehension over the rule sets. `EvaluateProfile` states it. |
| Engine.EvaluateProfile | eligibility/engine.py:16-17 | One verdict per registered rule set. Verdict i is rule set i's own verdict. |
| Engine.NoRuleSetsNoVerdicts | eligibility/engine.py:13-17 | With no rule sets registered the result is empty. |
| Engine.EvaluateAllConcat | eligibility/engine.py:17 | The verdicts of two lists of rule sets, registered one after the other, are the two lists of verdicts one after the other. |
| Engine.VerdictDependsOnOwnRuleSet | eligibility/engine.py:17 | The same rule set, at any position in any engine, gets the same verdict. |
| Server.LabelName | eligibility/rules.py:59-64 | Definition of the label string the response carries. `LabelNameRoundTrip` is about it. |
| Server.StatusText | api/server.py:72 | Definition of "unknown", "ok" or "fail" for an outcome. `RuleTextRoundTrip` is about it. |
| Server.RuleText | api/server.py:73 | Definition of the segment `"{description} [{status}]"`. `RuleTextRoundTrip` is about it. |
| Server.RuleTexts | api/server.py:68-73 | Definition of the rule texts in rule order. `RenderExplanation` is proved equal to them under the join. |
| Server.Explanation | api/server.py:74 | Definition of the explanation, the rule texts joined by the bar separator. The explanation rows are about it. |
| Server.LabelNameRoundTrip | eligibility/rules.py:59-64 | The three label strings are distinct and read back to their labels. |
| Server.RuleTextRoundTrip | api/server.py:71-73 | A segment `"{description} [{status}]"` determines the description and the outcome. `None` is "unknown", true is "ok" and false is "fail". |
| Server.ExplanationListsEveryRule | api/server.py:68-74 | Segment k of the explanation is rule k's text, at its offset in the join. The bar separator follows every segment but the last, and the explanation ends where the last segment ends. |
| Server.ExplanationLength | api/server.py:74 | The explanation ends where the last rule's segment ends: nothing follows it. |
| Server.ExplanationEmptyIff | api/server.py:74 | The explanation is empty exactly when there are no rule results. |
| Server.RenderExplanation | api/server.py:68-74 | The inner loop plus the join gives the explanation: rule texts in rule order, joined by the bar separator. |
| Server.BuildResults | api/server.py:64-85 | One response result per verdict, in order. Scheme id, label string and missing fields are copied, the explanation is rendered, and every result gets the same evidence list. |
| Server.ProfileDictAsWritten | api/server.py:49 | `.dict()` yields every profile attribute as a key, with unset ones as `None`. |
| Server.ProfileDict | api/server.py:49 | The corrected dictionary holds exactly the set attributes, with their values. |
| Server.AsWrittenNothingMissing | api/server.py:49-50 | As written, a rule on a profile attribute is never unknown, so it is never reported missing. |
| Server.AsWrittenUnsetAgeRaises | api/server.py:49-50 | As written, an unset age reaches `age >= 18` as `None`, which cannot be ordered. The demo engine's precondition fails: a `TypeError` is raised. |
| Server.CorrectedUnsetAgeReported | api/server.py:34-50 | With unset attributes left out, a request with no age and an income within the limit gets one verdict: INSUFFICIENT_INFO with `["age"]` missing. |
| Server.AgeMissingVerdict | api/server.py:34-42 | The demo scheme on a profile with no age and an income of at most 250000 gives INSUFFICIENT_INFO with `["age"]`. |
| Server.QueryVerdicts | api/server.py:49-50 | The handler's verdicts are one per rule set, each evaluated on the corrected profile dictionary. |
| Server.DemoEligible | api/server.py:34-42 | Age 19 and income 150000 give ELIGIBLE with nothing missing. |
| Server.DemoAgeFails | api/server.py:34-74 | Age 16 and income 150000 give NOT_ELIGIBLE. The explanation is the age rule with "[fail]", then the bar separator, then the income rule with "[ok]". |
| Server.DemoIncomeMissing | api/server.py:34-42 | Age 19 without income gives INSUFFICIENT_INFO with `["income"]`. |
| Server.DemoFailureOutranksMissing | api/server.py:34-42 | Age 10 without income gives NOT_ELIGIBLE, and `["income"]` is still reported missing. |
| PyText.JoinPieceAt | api/server.py:74 | In `sep.join(xs)`, piece k sits at its offset. |
| PyText.Join | api/server.py:74 | Definition of `sep.join(xs)`. The join rows are about it. |
| PyText.JoinLength | api/server.py:74 | `sep.join(xs)` ends right after its last piece. |
| PyText.JoinSeparatorAfter | api/server.py:74 | In `sep.join(xs)`, the separator follows every piece but the last. |
| Chunking.Sentences | ingestion/chunking.py:21-22 | Definition of the sentence list: newlines become spaces, the text is split at '.', the pieces are stripped and the blank ones dropped. The sentence rows are about it. |
| Chunking.NonBlank | ingestion/chunking.py:22 | Definition of the comprehension that keeps the stripped non-blank pieces. `NonBlankSentences` is about it. |
| Chunking.GreedyBuffers | ingestion/chunking.py:27-54 | Definition of the buffers the loop flushes from a given open buffer. `GreedyBuffersProgress` is about it. |
| Chunking.Grouping | ingestion/chunking.py:23-54 | Definition of the buffers of a whole sentence list. `GroupSentences` is proved to build its chunks from them, and `GroupingIsGreedy` states their properties. |
| Chunking.ChunkId | ingestion/chunking.py:34 | Definition of `f"{section_id}_c{counter}"`. `ChunkIdsDistinct` is about it. |
| Chunking.MakeChunk | ingestion/chunking.py:29-38 | Definition of chunk k built from a buffer. `ChunkFields` states it. |
| Chunking.SentencesAreSentences | ingestion/chunking.py:21-22 | Every entry of the sentence list is non-empty and stripped, and holds no '.' and no newline. |
| Chunking.NonBlankSentences | ingestion/chunking.py:22 | The non-blank stripped pieces of '.'- and newline-free pieces are sentences. |
| Chunking.GroupSentences | ingestion/chunking.py:23-55 | The loop and final flush return one chunk per buffer of `Grouping`, numbered from 1, built from that buffer. |
| Chunking.SimpleSentenceChunk | ingestion/chunking.py:17-55 | `simple_sentence_chunk` returns the chunks built from `Grouping` of the section's sentences. |
| Chunking.FlushStep | ingestion/chunking.py:28-42 | A sentence that does not fit closes the open, non-empty buffer and opens one holding that sentence. The rest of the grouping is unchanged. |
| Chunking.ExtendStep | ingestion/chunking.py:28-42 | A sentence that fits, or that meets an empty buffer, joins the open buffer. The rest of the grouping is unchanged. |
| Chunking.FinishStep | ingestion/chunking.py:44-54 | After the last sentence, the closed buffers plus the open one if it is non-empty are the whole grouping. |
| Chunking.GreedyBuffersStep | ingestion/chunking.py:27-42 | Reading one sentence closes the open buffer exactly when it is non-empty and the sentence would take it past `max_chars`. |
| Chunking.RunningLengthAppend | ingestion/chunking.py:42 | `current_len += len(sent) + 2` keeps `current_len` at the buffer's joined length plus 2. |
| Chunking.GreedyBuffersProgress | ingestion/chunking.py:27-54 | From any state the loop can reach, reading the remaining sentences completes a greedy grouping of all of them. |
| Chunking.GroupingIsGreedy | ingestion/chunking.py:27-54 | The chunker's buffers keep every sentence, in order and without repeats. No buffer is empty, each buffer of several sentences fits `max_chars`, and a buffer is closed only when the next sentence would not fit. |
| Chunking.GreedyIffGrouping | ingestion/chunking.py:27-54 | A grouping satisfies the greedy rule exactly when it equals the chunker's. |
| Chunking.ChunksResplit | ingestion/chunking.py:27-54 | No sentence is lost, changed, repeated or moved. The buffers, in order, are the sentences, and each chunk's text splits back into its buffer. |
| Chunking.ChunkTextRoundTrip | ingestion/chunking.py:21-30 | `". ".join(buf) + "."` yields `buf` again under the sentence splitter. |
| Chunking.ChunkFields | ingestion/chunking.py:29-52 | Chunk k has the section's doc id and the id `{section_id}_c{k+1}`. Its text is its non-empty buffer joined by ". " plus ".", and its metadata is the section's page and id. |
| Chunking.ChunkIdsDistinct | ingestion/chunking.py:34-50 | No two chunks of a section share an id. |
| Chunking.ChunkFits | ingestion/chunking.py:28 | A chunk of two or more sentences is at most `max_chars` long, not counting its closing '.'. |
| Chunking.LongSentenceAlone | ingestion/chunking.py:28-42 | A sentence longer than `max_chars` is kept, in a chunk of its own. |
| Chunking.NoChunksIffNoSentences | ingestion/chunking.py:22-44 | A section gives no chunks exactly when its text has no sentence. |
| Chunking.FirstBufferMaximal | ingestion/chunking.py:28 | Of two greedy groupings of the same sentences, neither first buffer is longer than the other's: the greedy first buffer is as long as that of any other greedy grouping. |
| Chunking.GreedyGroupingUnique | ingestion/chunking.py:27-42 | Only one grouping satisfies the greedy rule. |
| Chunking.ChunksDetermined | ingestion/chunking.py:17-55 | All chunk lists that satisfy the specification for a section are equal. |
| PyText.Split | ingestion/chunking.py:22 | Definition of `s.split(c)` for one character. `SplitJoin` is about it. |
| PyText.NatToDecimal | ingestion/chunking.py:34 | Definition of `str(n)` for a natural number. The decimal rows are about it. |
| PyText.SplitJoin | ingestion/chunking.py:22 | Joining the pieces of `s.split(c)` with `c` gives `s` back. |
| PyText.StripIdempotent | ingestion/chunking.py:22 | Stripping twice is stripping once. |
| PyText.Strip | ingestion/chunking.py:22 | `strip` keeps the infix between the dropped characters. It is empty exactly when every character is dropped, and otherwise neither end is dropped. |
| PyText.DecimalRoundTrip | ingestion/chunking.py:34 | `str(n)` reads back as `n`. |
| PyText.DecimalInjective | ingestion/chunking.py:34 | Distinct counters give distinct numerals. |
| Downloader.LooksLikePdfLink | ingestion/downloader.py:55-60 | Definition of `_looks_like_pdf_link`. `PdfLinkIff` and the rows after it are about it. |
| PyText.Lower | ingestion/downloader.py:59 | Definition of ASCII `lower`. `LowerIdempotent` is about it. |
| Downloader.PathPart | ingestion/downloader.py:59 | The reference path part is a prefix with no '?' and no '#'. |
| Downloader.CutQueryThenFragment | ingestion/downloader.py:59 | Cutting at the first '?' and then at the first '#' leaves the text before the first of either. |
| Downloader.PdfLinkIff | ingestion/downloader.py:55-60 | A link is a PDF link exactly when its text before the first '?' or '#', lower-cased, ends with ".pdf". |
| Downloader.EmptyHrefIsNotPdf | ingestion/downloader.py:57-58 | The empty href is not a PDF link. |
| Downloader.QueryOrFragmentIgnored | ingestion/downloader.py:59 | Appending `?query` or `#fragment` to an href does not change the verdict. |
| Downloader.PdfLinkCaseInsensitive | ingestion/downloader.py:59-60 | The verdict ignores letter case. |
| Downloader.PdfLinkWithQuery | ingestion/downloader.py:59-60 | `A.PDF?dl=1` is a PDF link. |
| Downloader.PdfOnlyInFragment | ingestion/downloader.py:59-60 | `a.htm#b.pdf` is not a PDF link. |
| PyText.LowerIdempotent | ingestion/downloader.py:59 | Lower-casing twice is lower-casing once. |
| Downloader.ReplaceUnsafe | ingestion/downloader.py:48 | Definition of `re.sub(r"[^\w.\-]", "_", name)`. `ReplacedIsSafe` is about it. |
| Downloader.CollapseUnderscores | ingestion/downloader.py:49 | Definition of `re.sub(r"_+", "_", name)`. The collapse rows are about it. |
| Downloader.CleanName | ingestion/downloader.py:48-49 | Definition of the replace, collapse and `strip("_")` steps. `CleanNameShape` is about it. |
| Downloader.SanitiseFilename | ingestion/downloader.py:48-52 | Definition of `_sanitise_filename` from the decoded name on. The sanitising rows are about it. |
| Downloader.ReplacedIsSafe | ingestion/downloader.py:48 | After the replacement every character is a word character, '.' or '-'. |
| Downloader.CollapseNoDouble | ingestion/downloader.py:49 | After collapsing, no two underscores are adjacent. |
| Downloader.CollapseEnds | ingestion/downloader.py:49 | Collapsing never lengthens the name and keeps its first and last characters. |
| Downloader.CleanNameShape | ingestion/downloader.py:48-49 | The cleaned name is all safe characters with no "__", and it neither starts nor ends with '_'. |
| Downloader.SanitisedIsSafe | ingestion/downloader.py:48-52 | Every sanitised name is non-empty and has only safe characters. It has no "__", no '_' at either end, and ends with ".pdf" in some letter case. |
| Downloader.ExistingSuffixKept | ingestion/downloader.py:50-51 | A name already ending in ".pdf" in any case keeps that suffix. Nothing is appended: the result is the cleaned name itself, no longer than the name. |
| Downloader.AppendPdfEndsWithPdf | ingestion/downloader.py:50-51 | Appending ".pdf" makes the name end with ".pdf". |
| Downloader.SafeNameFixed | ingestion/downloader.py:48-52 | A name that is already safe comes out unchanged. |
| Downloader.SanitiseIdempotent | ingestion/downloader.py:48-52 | Sanitising twice is sanitising once. |
| Downloader.SanitiseExample | ingestion/downloader.py:44 | "scheme guide.pdf" becomes "scheme_guide.pdf". |
| Metrics.EligibilityAccuracy | evaluation/metrics.py:6-21 | The two loops compute `correct / total` over the predictions with a gold label, or 0 when there are none. The result is always between 0 and 1. |
| Metrics.GoldMap | evaluation/metrics.py:11 | Definition of the gold dictionary comprehension. `GoldMapKeys` and `GoldMapLastWins` are about it. |
| Metrics.Scored | evaluation/metrics.py:14-18 | Definition of `total`, the number of predictions with a gold key. The count rows are about it. |
| Metrics.Correct | evaluation/metrics.py:14-20 | Definition of `correct`, the number of scored predictions that match their gold label. The count rows are about it. |
| Metrics.GoldMapKeys | evaluation/metrics.py:11 | A key has a gold label exactly when some gold entry has that key. |
| Metrics.GoldMapLastWins | evaluation/metrics.py:11 | When gold repeats a key, the label of its last entry wins. |
| Metrics.CorrectAtMostScored | evaluation/metrics.py:14-21 | There are never more correct predictions than scored ones. |
| Metrics.UnscoredSkipped | evaluation/metrics.py:16-17 | A prediction without a gold label changes neither count. |
| Metrics.NoneScored | evaluation/metrics.py:16-21 | When no prediction has a gold key, both counts are 0. |
| Metrics.NoGoldNoScore | evaluation/metrics.py:21 | With no gold labels the accuracy is 0. |
| Metrics.CountsConcat | evaluation/metrics.py:14-20 | The counts over two lists of predictions add up. |
| Metrics.PredictionOrderIrrelevant | evaluation/metrics.py:14-20 | Any reordering of the predictions (the same multiset) gives the same scored and correct counts. |
| Metrics.RepeatsCountTwice | evaluation/metrics.py:14-20 | A repeated prediction is counted each time it occurs. |
| Metrics.AllCorrect | evaluation/metrics.py:18-20 | Predictions that all match their gold labels are all scored and all correct. |
| Metrics.GoldAgainstItself | evaluation/metrics.py:6-21 | Scoring a gold list with distinct keys against itself scores every entry and finds every one correct: accuracy `|gold|/|gold|` when the list is non-empty, and 0 when it is empty. |

## Left out

- `find_pdf_links`, `download_pdf`, `download_pdfs_from_url` and `main` (ingestion/downloader.py) are not modelled. They do HTTP requests, parse HTML, write files and sleep.
- In `_sanitise_filename`, `urlparse`, `unquote` and `Path(...).name` are library calls. The model starts from the decoded last path segment (ingestion/downloader.py:48 on).
- Downloader.IsWordChar: Python's Unicode `\w` beyond ASCII is the parameter `nonAsciiWord`, a set of characters, because the Unicode tables are not modelled. ASCII letters, digits and '_' are exact.
- PyText.Lower: lower-cases ASCII letters only. Python's Unicode case mapping is not modelled. The ".pdf" tests depend only on ASCII letters.
- PyText.IsSpace: the fixed set of code points that `str.isspace` accepts. It is written out, not taken from the Unicode database.
- Server.UserProfile: income is `Optional[float]` in the source and a whole number here, because floating point is not modelled. The rule literals (18, 250000) are integers.
- Metrics.EligibilityAccuracy: returns the exact fraction `Ratio(correct, total)`, or `Ratio(0, 1)`, instead of a float.
- Rules.PyLe: `<=` and `>=` between two lists are excluded by the `WellTyped` precondition, though Python orders lists lexicographically. Ordering mixed types, and `in` on a non-container, raise `TypeError` in Python; they are excluded the same way. No verdict is computed for such inputs.
- The `KeyError` a gold or prediction dictionary without `profile_id`, `scheme_id` or `label` would raise cannot occur: `Metrics.Record` always has the three fields.
- The evidence list is the type parameter `E` of `Server.BuildResults`, passed through unchanged. Retrieval (`VECTOR_STORE.search`), the vector store, the FastAPI wiring, startup and the `ENGINE is None` check are not modelled.
- The UI, the knowledge graph, the PDF parsers, the loaders, configuration and logging are not part of this model.
- Chunking.GroupSentences: `max_chars` is a parameter. Its default of 800 is not fixed in the model.

## Findings

| source | as written | input that shows it | evidently intended | confidence | as-written member | corrected member |
|---|---|---|---|---|---|---|
| api/server.py:49 | `request.profile.dict()` keeps unset attributes as keys whose value is `None`, so no profile field is ever missing, and `None >= 18` raises `TypeError` | a request profile without `age`, e.g. only `income: 100000` | a profile field left unset is reported missing (`dict(exclude_none=True)`): INSUFFICIENT_INFO with `missing_fields == ["age"]` | high, not executed | Server.AsWrittenUnsetAgeRaises | Server.CorrectedUnsetAgeReported |
