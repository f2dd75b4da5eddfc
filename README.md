# Résumé analyser backend: a verified model of its core

The backend of the résumé analyser takes an uploaded PDF, turns it into text,
renders prompt templates loaded from a YAML file, sends them to a language
model, and reads structured JSON back out of free-form model replies while
counting the tokens each step uses. Its configuration comes from a small
dotenv loader of its own.

This project models the deterministic core of that backend in Dafny and proves
what it does:

- **JsonExtract** — `parse_jsonish` and `parse_llm_json`: strip the reply,
  drop everything up to the first "Final JSON Output" (or else "Final JSON
  Object") marker, take the body of the first ```` ```json {…} ``` ```` fence
  (leftmost match, lazy body), try `json.loads`, fall back to the
  first-`{`-to-last-`}` window, and otherwise return the `{"llm_output": text}`
  sentinel; `parse_llm_json` turns the sentinel into the
  `{"error": "could_not_parse_json", "raw": text}` record. `json.loads` is a
  parameter: every property holds for every decoder, except that the two
  sentinel if-and-only-if lemmas assume a decoder whose objects never hold
  "llm_output" (the real `json.loads` can yield one, and then the reply is
  read as a failure).
- **TokenUsage** — the process-wide token ledger as a class: `reset`, `add`
  (tokenizer count, or whitespace word count when the tokenizer raises) and the
  total and breakdown that `print_token_usage` reports, with the total proved
  to be the sum of everything added.
- **PdfText** — the page loop of `extract_pdf_text`: blank pages dropped,
  the rest joined with `<next-page>` and stripped.
- **Prompts** — `string.Template.safe_substitute` (`$$`, `$name`, `${name}`
  and unknown names left verbatim), `Prompt.render_messages`, the validation
  of `PromptService._load`, the file chosen by `__init__`, and
  `PromptService.get` with all its error cases.
- **EnvLoader** — `load_env_file` as a method on the process environment with
  a loop invariant tying each step to a line-by-line reference definition, and
  `load_env_local`'s order of files; first-assignment-wins without `override`,
  last-assignment-wins with it.
- **Text** — the Python `str` operations these rely on, written out:
  `isspace`, `strip()`, `strip(c)`, `find`, `rfind`, `join`, `splitlines()` and
  `len(split())`.

`wrappers.dfy` holds the `Option` and `Result` types.

## Model

| member | source | states |
|---|---|---|
| Text.IsSpace | backend/helper.py:55 | no contract; the characters `str.isspace` accepts, the set `strip()`, `split()` and the regex class `\s` work with, characterised by `WordCountZero` and the strip lemmas |
| Text.Drops | backend/env_loader.py:25 | no contract; the character a `strip` removes: whitespace, a given character, or (for the word scan) anything but whitespace |
| Text.LStrip | backend/helper.py:100 | no longer than the input, and a non-empty result does not start with a dropped character |
| Text.LStripParts | backend/helper.py:100 | the input is a dropped-only prefix followed by the left-stripped text |
| Text.RStrip | backend/helper.py:100 | no longer than the input, and a non-empty result does not end with a dropped character |
| Text.RStripParts | backend/helper.py:100 | the input is the right-stripped text followed by a dropped-only suffix |
| Text.RStripPrefix | backend/helper.py:100 | the right-stripped text is a prefix of the input |
| Text.Strip | backend/helper.py:100 | no contract; `str.strip()` over the whitespace set, characterised by the `StripBy` lemmas below |
| Text.StripChar | backend/env_loader.py:25 | no contract; `str.strip(c)` for one character, characterised by the `StripBy` lemmas below |
| Text.StripBy | backend/env_loader.py:25 | no longer than the input; neither end of a non-empty result is of the dropped class |
| Text.StripEmptyIff | backend/env_loader.py:18 | the stripped text is empty exactly when every character is dropped |
| Text.StripParts | backend/helper.py:100 | the stripped text is a contiguous slice with only dropped characters before and after it |
| Text.LStripDropsPrefix | backend/helper.py:100 | a dropped-only prefix before a kept character is exactly what the left strip removes |
| Text.RStripDropsSuffix | backend/helper.py:100 | a dropped-only suffix after a kept character is exactly what the right strip removes |
| Text.StripUnique | backend/helper.py:100 | stripping `a + m + b` with dropped-only `a`, `b` and kept ends of `m` gives `m` |
| Text.StripKeeps | backend/helper.py:100 | a text whose ends are kept is unchanged by strip |
| Text.StripIdempotent | backend/helper.py:100 | stripping twice is stripping once |
| Text.StripIgnoresAround | backend/helper.py:100 | whitespace added around a text does not change its strip |
| Text.AllDropConcat | backend/helper.py:100 | two dropped-only texts concatenate to a dropped-only text |
| Text.OccursAt | backend/helper.py:102 | no contract; `sub` occurs in `s` starting at index `i`, the match `find` and `rfind` look for |
| Text.FindFrom | backend/helper.py:102 | -1 when no occurrence at or after `i`; otherwise an occurrence with none before it from `i` |
| Text.Find | backend/helper.py:102 | `str.find`: -1 exactly when there is no occurrence; otherwise the first occurrence |
| Text.FindInPrefix | backend/helper.py:102 | the first occurrence inside a prefix is the first occurrence in the whole text |
| Text.IndexOf | backend/env_loader.py:20-23 | the index of the first `=`: within bounds exactly when it occurs, that character there, none before |
| Text.RFindAtMost | backend/helper.py:121 | an occurrence at or before `i`, with none between it and `i` |
| Text.RFind | backend/helper.py:121 | `str.rfind`: -1 exactly when there is no occurrence; otherwise the last occurrence |
| Text.Join | backend/helper.py:33 | no contract; `sep.join(parts)`, characterised by `JoinSnoc`, `JoinCons`, `JoinContains` and `JoinAllSpace` |
| Text.JoinSnoc | backend/helper.py:33 | joining one more part appends the separator and that part |
| Text.JoinCons | backend/helper.py:33 | joining a part before others puts the separator between them |
| Text.JoinContains | backend/helper.py:33 | every character of every part occurs in the joined text |
| Text.JoinAllSpace | backend/helper.py:33 | a whitespace-only join comes from whitespace-only parts |
| Text.IsLineBreak | backend/env_loader.py:16 | no contract; the line boundaries `str.splitlines()` recognises |
| Text.FirstBreak | backend/env_loader.py:16 | within the text, and a line boundary at the index it returns unless it is the end |
| Text.FirstBreakFirst | backend/env_loader.py:16 | no line boundary comes before the one `FirstBreak` finds |
| Text.SplitLines | backend/env_loader.py:16 | no lines exactly when the text is empty |
| Text.NextLineStart | backend/env_loader.py:16 | past the boundary at `i`, within the text; a `\n` is one character (a `\r\n` pair counts as one boundary) |
| Text.SplitLinesNoBreaks | backend/env_loader.py:16 | no line holds a line boundary |
| Text.SplitLinesUnfold | backend/env_loader.py:16 | a `\n` at the first boundary ends the first line |
| Text.SplitLinesStep | backend/env_loader.py:16 | joining the lines with `\n` rebuilds the text one line at a time |
| Text.SplitLinesJoin | backend/env_loader.py:16 | for text whose only boundaries are `\n`, joining the lines with `\n` (plus a lost final `\n`) gives the text back |
| Text.LStripAppend | backend/helper.py:55 | a left strip that stops inside `a` is unaffected by what follows |
| Text.WordCount | backend/helper.py:55 | no contract; `len(text.split())`, characterised by the `WordCount` lemmas below |
| Text.WordCountZero | backend/helper.py:55 | `len(split())` is 0 exactly when the text is all whitespace |
| Text.WordCountSpaceFirst | backend/helper.py:55 | a leading whitespace character adds no word |
| Text.WordCountOneWord | backend/helper.py:55 | a word ends at the first whitespace character |
| Text.WordCountWordFirst | backend/helper.py:55 | a text that starts with a word splits at a whitespace character into additive counts |
| Text.WordCountSplit | backend/helper.py:55 | the word count of `a + c + b` for whitespace `c` is that of `a` plus that of `b` |
| JsonExtract.AfterMarker | backend/helper.py:101-105 | no contract; the marker step, characterised by `AfterFirstOutputMarker`, `AfterFirstObjectMarker`, `OutputMarkerFirst` and `NoMarkerKeeps` |
| JsonExtract.SkipSpace | backend/helper.py:107 | a greedy `\s*` from `i` stops within the text, at or after `i`; what it skips is stated by `SkipSpaceStops` |
| JsonExtract.BodyStart | backend/helper.py:107 | no contract; where the body's `{` must stand after "```json" and its whitespace, used by `FenceAt` |
| JsonExtract.OpensAt | backend/helper.py:107 | no contract; the regex prefix "```json", `\s*` and `{` matches at `p`, part of `FenceAt` |
| JsonExtract.ClosesAt | backend/helper.py:107 | no contract; a `}` at `e` followed by `\s*` and "```", part of `FenceAt` |
| JsonExtract.FenceAt | backend/helper.py:106-107 | no contract; the independent statement of the regex matching at `p` with group 1 ending at `e`, against which `FindFenceLeftmostShortest` is proved |
| JsonExtract.LeftmostFrom | backend/helper.py:106-107 | no contract; a match is the leftmost from `p` with the shortest body at its start, or there is none, stated with `FenceAt` |
| JsonExtract.ShortestFrom | backend/helper.py:106-107 | no contract; the shortest body of a match at `p`, or none ends, stated with `FenceAt` |
| JsonExtract.SkipSpaceStops | backend/helper.py:106 | greedy `\s*`: whitespace up to the returned index, non-whitespace there |
| JsonExtract.FirstClose | backend/helper.py:106 | a reported index holds a `}` at or after `e0` |
| JsonExtract.FirstCloseFirst | backend/helper.py:106 | lazy `.*?\}\s*```: the first `}` from `e0` that closes the fence, or none at all |
| JsonExtract.FindFenceFrom | backend/helper.py:106-107 | a reported match starts at or after `p` and its body runs from a `{` to a later `}` |
| JsonExtract.ShortestAt | backend/helper.py:106-107 | at one start, the match ends at the first closing `}`, and there is none when no `}` closes |
| JsonExtract.FindFenceFromFirst | backend/helper.py:106-107 | the first match start at or after `p`, with the shortest body there; none when no start matches |
| JsonExtract.FindFence | backend/helper.py:106-107 | a reported body starts with `{` and ends with `}` inside the text |
| JsonExtract.FindFenceLeftmostShortest | backend/helper.py:106-107 | `re.search`: a match is reported exactly when one exists; it is the leftmost and, from there, the shortest |
| JsonExtract.Candidate | backend/helper.py:100-109 | no contract; the text first given to `json.loads`, characterised by `FencedParse`, `MarkerThenPayload` and `NoStructureGivesSentinel` |
| JsonExtract.FenceStage | backend/helper.py:106-109 | no contract; the fenced group when the fence matches, the text otherwise, characterised by `FencedBodyIsCandidate` |
| JsonExtract.FencedBody | backend/helper.py:109 | no contract; group 1 of a match, stripped, characterised by `FencedBodyIsCandidate` |
| JsonExtract.FencedBodyIsCandidate | backend/helper.py:108-109 | the fenced group reaches `json.loads` whole, braces included, unchanged by its `strip()` |
| JsonExtract.AfterFirstOutputMarker | backend/helper.py:101-105 | only the text after the first "Final JSON Output" is kept, stripped |
| JsonExtract.AfterFirstObjectMarker | backend/helper.py:101-105 | with no "Final JSON Output" anywhere, only the text after the first "Final JSON Object" is kept, stripped |
| JsonExtract.OutputMarkerFirst | backend/helper.py:101-105 | "Final JSON Output" is looked for before "Final JSON Object", wherever the latter occurs |
| JsonExtract.NoMarkerKeeps | backend/helper.py:101-105 | text with neither marker is left as it is |
| JsonExtract.NoMarkerWithoutF | backend/helper.py:101-105 | text without an `F` holds neither marker |
| JsonExtract.NoFenceWithoutBacktick | backend/helper.py:106-108 | no backtick, no fence match |
| JsonExtract.Snippet | backend/helper.py:120-123 | a window starts with `{` and ends with `}` |
| JsonExtract.SnippetWindow | backend/helper.py:120-123 | the window exists exactly when a `{` precedes a `}`; it runs from the first `{` to the last `}` |
| JsonExtract.Wrap | backend/helper.py:113-116 | no contract; a decoded object as it is, any other value under "value", characterised by `ParseJsonish` |
| JsonExtract.Sentinel | backend/helper.py:134 | no contract; `{"llm_output": text}`, characterised by `ParseJsonish` and `SentinelIffNothingParsed` |
| JsonExtract.ErrorRecord | backend/helper.py:89 | no contract; `{"error": "could_not_parse_json", "raw": text}`, characterised by `ParseLlmJson` |
| JsonExtract.ParseJsonish | backend/helper.py:94-134 | the first decode that succeeds is returned (a dict as is, any other value under "value"); the window only after the candidate fails; the sentinel when both fail |
| JsonExtract.ParseLlmJson | backend/helper.py:79-91 | the error record exactly when the parsed mapping has "llm_output", the parsed mapping otherwise; never holds "llm_output" |
| JsonExtract.NothingParsed | backend/helper.py:111-134 | no contract; neither `json.loads` attempt succeeded, the condition `SentinelIffNothingParsed` ties to the sentinel |
| JsonExtract.NoSentinelPayload | backend/helper.py:86-89 | no contract; no decoded object holds "llm_output", the assumption under which the sentinel is a faithful failure signal |
| JsonExtract.SentinelIffNothingParsed | backend/helper.py:111-134 | for decoders whose payloads never hold "llm_output", the sentinel key appears exactly when no decode succeeded |
| JsonExtract.LlmJsonErrorIffNothingParsed | backend/helper.py:79-91 | under the same assumption, the error record is returned exactly when nothing parsed or the payload was that record |
| JsonExtract.GenuinePayloadReadAsFailure | backend/helper.py:86-89 | a genuine object holding "llm_output" is reported as a parse failure |
| JsonExtract.MarkerThenPayload | backend/helper.py:100-116 | marker, then an unfenced object payload: the payload is returned |
| JsonExtract.MarkerThenFence | backend/helper.py:100-115 | marker, then a fenced object: the object inside the fence is returned |
| JsonExtract.FencedParse | backend/helper.py:106-115 | after the marker step, a fence's body is decoded and returned |
| JsonExtract.NoStructureGivesSentinel | backend/helper.py:100-134 | stripped text with neither marker, no fence match and no `{`, and a failing decode, give the sentinel |
| JsonExtract.PlainProseExample | backend/helper.py:133-134 | "no structured content here" becomes `{"llm_output": text}` |
| JsonExtract.MarkerFenceExample | backend/helper.py:100-115 | "blah blah Final JSON Output ```json {"a": 1} ```" parses to `{"a": 1}` |
| JsonExtract.FenceInExample | backend/helper.py:106-107 | the fence in that example matches from 0 with the body at indices 8 to 15 |
| TokenUsage.EstimateTokens | backend/helper.py:50-55 | without a tokenizer the estimate is 0 exactly when the text is whitespace only |
| TokenUsage.FallbackAdds | backend/helper.py:55 | without a tokenizer, texts joined by one whitespace character cost the sum of their costs |
| TokenUsage.Get | backend/helper.py:65 | no contract; `_TOKEN_USAGE.get(label, 0)`, used by `Add` and `SumUpdate` |
| TokenUsage.SumOver | backend/helper.py:70 | no contract; the sum over a set of labels, characterised by `SumOverRemove` and `SumOverAgree` |
| TokenUsage.Sum | backend/helper.py:70 | no contract; `sum(_TOKEN_USAGE.values())`, characterised by `SumOverRemove`, `SumOverAgree`, `SumUpdate` and `ReplaySum` |
| TokenUsage.SumOverRemove | backend/helper.py:70 | the sum of the ledger does not depend on the order the labels are taken in |
| TokenUsage.SumOverAgree | backend/helper.py:70 | ledgers that agree on a set of labels have the same sum over it |
| TokenUsage.SumUpdate | backend/helper.py:65 | adding a count under one label raises the total by exactly that count |
| TokenUsage.Replay | backend/helper.py:62-66 | no contract; the ledger after a run of `add_token_usage` calls, characterised by `ReplayLabel`, `ReplayKeys` and `ReplaySum` |
| TokenUsage.NameTotal | backend/helper.py:62-66 | no contract; the independent per-label total of a run of calls, against which `ReplayLabel` is proved |
| TokenUsage.CountTotal | backend/helper.py:62-70 | no contract; the independent total of a run of calls, against which `ReplaySum` is proved |
| TokenUsage.ReplayLabel | backend/helper.py:62-66 | from an empty ledger, a label holds the sum of the counts recorded under it |
| TokenUsage.ReplayKeys | backend/helper.py:62-66 | from an empty ledger, the labels are exactly those used |
| TokenUsage.ReplaySum | backend/helper.py:62-70 | from an empty ledger, the total is the sum of all counts |
| TokenUsage.ReplayFromEmpty | backend/helper.py:62-66 | from an empty ledger, each label holds the sum of its counts, the labels are those used, and the total is the sum of all counts |
| TokenUsage.TokenLedger.constructor | backend/helper.py:39 | the ledger starts empty |
| TokenUsage.TokenLedger.Total | backend/helper.py:70 | no contract; the ledger's total, `Sum` of its counts, stated by `Reset` and `Add` |
| TokenUsage.TokenLedger.Reset | backend/helper.py:58-59 | the ledger is empty and its total 0 |
| TokenUsage.TokenLedger.Add | backend/helper.py:62-66 | returns the estimate, adds it to that label only (absent labels start at 0), and raises the total by it |
| TokenUsage.TokenLedger.Report | backend/helper.py:69-76 | the "llm_token_usage" event, the sum of all counts as the total, the ledger unchanged as the breakdown |
| PdfText.PageText | backend/helper.py:30 | no contract; `page.extract_text() or ""`: a page without text counts as empty |
| PdfText.IsBlank | backend/helper.py:31 | no contract; the page is skipped when its stripped text is empty, characterised by `NonBlankPagesKept` and `NoPagesIffAllBlank` |
| PdfText.NonBlankPages | backend/helper.py:29-32 | no contract; the pages whose text is not blank, in order, characterised by `NonBlankPagesKept`, `NoPagesIffAllBlank` and `NonBlankPagesAppend` |
| PdfText.PdfTextOf | backend/helper.py:33 | no contract; the kept pages joined with `<next-page>` and stripped, characterised by `EmptyIffAllBlank`, `OnePage` and `SeveralPages` |
| PdfText.ExtractPdfText | backend/helper.py:25-35 | the result equals the reference definition: non-blank pages joined with `<next-page>`, stripped |
| PdfText.NonBlankPagesKept | backend/helper.py:29-32 | no more pages are kept than given, and each kept page has non-whitespace text |
| PdfText.NoPagesIffAllBlank | backend/helper.py:29-32 | no page is kept exactly when every page is blank |
| PdfText.NonBlankPagesAppend | backend/helper.py:29-32 | page order is kept: the kept pages of a concatenation are those of each part in turn |
| PdfText.EmptyIffAllBlank | backend/helper.py:28-33 | the text is empty exactly when every page is blank |
| PdfText.OnePage | backend/helper.py:28-33 | one page gives its text, stripped |
| PdfText.StripAroundSeparator | backend/helper.py:33 | the final strip only touches the outer ends, never whitespace next to a separator |
| PdfText.SeparatorEnds | backend/helper.py:33 | text around the separator has no whitespace at its ends when its outer parts do not |
| PdfText.SeveralPages | backend/helper.py:33 | with two or more pages kept, only the first's leading and the rest's trailing whitespace go |
| Prompts.IsIdStart | backend/prompt_service.py:24-25 | no contract; the first character of a placeholder name, `[_a-z]` matched ignoring ASCII case |
| Prompts.IsIdChar | backend/prompt_service.py:24-25 | no contract; any later character of a placeholder name, `[_a-z0-9]` ignoring ASCII case |
| Prompts.IsIdentifier | backend/prompt_service.py:24-25 | no contract; a whole placeholder name, used by `Named` and `Braced` |
| Prompts.Substitute | backend/prompt_service.py:24-25 | no contract; `Template(t).safe_substitute(vars)`, characterised by `PlainPrefix`, `Escaped`, `Named`, `Braced`, `Invalid`, `InvalidBrace` and `NoVariables` |
| Prompts.MatchAt | backend/prompt_service.py:24-25 | each step of the scan consumes at least one character and no more than the text |
| Prompts.IdentPrefix | backend/prompt_service.py:24-25 | a prefix of the text that no name character follows |
| Prompts.IdentPrefixChars | backend/prompt_service.py:24-25 | every character of that prefix is a name character, so none is a `$` |
| Prompts.IdentOfName | backend/prompt_service.py:24-25 | a name followed by a non-name character is read whole |
| Prompts.NoDollarUnchanged | backend/prompt_service.py:24-25 | text without `$` is not changed by substitution |
| Prompts.PlainPrefix | backend/prompt_service.py:24-25 | text before the first `$` is copied unchanged |
| Prompts.Escaped | backend/prompt_service.py:24-25 | `$$` becomes `$` |
| Prompts.Named | backend/prompt_service.py:24-25 | `$name` becomes its value, or stays verbatim when unknown |
| Prompts.Braced | backend/prompt_service.py:24-25 | `${name}` becomes its value, or stays verbatim when unknown |
| Prompts.Invalid | backend/prompt_service.py:24-25 | a `$` at the end, or before a character that is not `$`, `{` or a name start, is kept and scanning resumes after it, with no error |
| Prompts.InvalidBrace | backend/prompt_service.py:24-25 | a `${` that opens no complete `${name}` (no name, or a name not closed by `}`) keeps its `$` and scanning resumes at the `{`, with no error |
| Prompts.UnescapePlain | backend/prompt_service.py:24-25 | unescaping copies text without `$` unchanged |
| Prompts.Unescape | backend/prompt_service.py:24-25 | no contract; the independent reference for substitution without variables (`$$` collapsed, all else kept), against which `NoVariables` is proved |
| Prompts.NoVariables | backend/prompt_service.py:24-25 | with no variables, substitution only collapses `$$` |
| Prompts.NoVariablesNamed | backend/prompt_service.py:24-25 | with no variables, `$name` is left as written |
| Prompts.NoVariablesBraced | backend/prompt_service.py:24-25 | with no variables, `${name}` is left as written |
| Prompts.Render | backend/prompt_service.py:24-25 | no contract; a template substituted and stripped, characterised by `EmptyTemplate` and the substitution lemmas |
| Prompts.EmptyTemplate | backend/prompt_service.py:24 | an empty template renders to the empty string |
| Prompts.Prompt.RenderMessages | backend/prompt_service.py:23-30 | one or two messages; the user message, rendered, always last; a system message first exactly when its rendered text is not empty |
| Prompts.RenderStringEntry | backend/prompt_service.py:23-30 | a prompt with an empty system template renders to the user message alone |
| Prompts.ResolvePromptPath | backend/prompt_service.py:34-38 | the argument, else `PROMPT_YAML_PATH`, else prompt.yaml beside the module |
| Prompts.Falsy | backend/prompt_service.py:53 | no contract; the documents Python treats as false, which `or {}` replaces, characterised by `EmptyDocumentRejected` |
| Prompts.Load | backend/prompt_service.py:42-58 | the document is accepted exactly when pyyaml imported, the file exists, it read, and it is a mapping with "prompts"; then it is returned as loaded |
| Prompts.EmptyDocumentRejected | backend/prompt_service.py:53-57 | an empty or false document becomes `{}` and is rejected as an invalid format |
| Prompts.LoadErrorOrder | backend/prompt_service.py:43-57 | the missing library is reported first, then the missing file, then the format |
| Prompts.Create | backend/prompt_service.py:33-40 | construction succeeds exactly when loading the chosen path succeeds; the service holds that path and, as its data, the mapping that file was read as, which has a "prompts" key |
| Prompts.PromptService.Prompts | backend/prompt_service.py:61-62 | no contract; `_data.get("prompts")` when it is a mapping, used by `Get` and `LoadedServiceLookup` |
| Prompts.Field | backend/prompt_service.py:71-72 | no contract; `entry.get(key, "")`, characterised by `MappingEntry` |
| Prompts.ValidEntry | backend/prompt_service.py:67-74 | no contract; an entry `get` accepts: a string, or a mapping whose fields are strings where present, characterised by `Get` |
| Prompts.EntryPrompt | backend/prompt_service.py:67-75 | no contract; the `Prompt` a valid entry becomes, which `Get` returns exactly for a valid entry; the three `GetError` cases are the KeyError and the two ValueErrors of `get` |
| Prompts.PromptService.Get | backend/prompt_service.py:60-75 | not found (the KeyError) exactly when "prompts" is not a mapping or lacks the name, listing the available names; success exactly for a string or a mapping with string fields, giving the prompt they stand for; any other entry is one of the two ValueErrors |
| Prompts.StringEntry | backend/prompt_service.py:67-68 | a string entry is a user template with an empty system template |
| Prompts.MappingEntry | backend/prompt_service.py:69-74 | missing fields default to empty templates; a present non-string field is an error |
| Prompts.OtherEntry | backend/prompt_service.py:69-70 | an entry neither string nor mapping is an error |
| Prompts.LoadedServiceLookup | backend/prompt_service.py:60-64 | for a loaded service, a name is reported missing exactly when it is not among the prompts |
| EnvLoader.NormalizeValue | backend/env_loader.py:25 | the value never starts or ends with `"` and is no longer than the raw value |
| EnvLoader.Skipped | backend/env_loader.py:18-21 | no contract; a stripped line that is blank, a comment or without `=`, characterised by `SkippedLineEffect` and `ParseLine` |
| EnvLoader.ParseLine | backend/env_loader.py:17-27 | blank, comment and `=`-less lines assign nothing; an assigned key is non-empty, stripped, without `=` and not a comment |
| EnvLoader.KeyFacts | backend/env_loader.py:23-24 | the key before the first `=` of a stripped non-comment line has no `=`, is stripped and does not start with `#` |
| EnvLoader.SplitAtFirstEquals | backend/env_loader.py:17-25 | any line `k=v` whose `k` has no `=` and is neither blank nor a comment once stripped, surrounding whitespace included, assigns the stripped `k` the normalised `v`, later `=` staying in the value |
| EnvLoader.DoubleQuotesOutside | backend/env_loader.py:25 | a double-quoted value loses exactly its quotes, keeping inner single quotes |
| EnvLoader.SingleQuotesOutside | backend/env_loader.py:25 | a single-quoted value loses its quotes and then any double quotes at its ends |
| EnvLoader.ParseLines | backend/env_loader.py:16-27 | one parsed entry per line, each what that line assigns |
| EnvLoader.Apply | backend/env_loader.py:26-30 | no contract; one parsed line applied to the environment, characterised by `SkippedLineEffect`, `EmptyKeySkipped` and the `ApplyAll` lemmas |
| EnvLoader.ApplyAll | backend/env_loader.py:16-30 | no contract; the parsed lines applied in order, characterised by `OnlyAssignedKeysChange`, `FirstOccurrenceWins`, `FirstValueIsAssigned` and `LastOccurrenceWins` |
| EnvLoader.AssignedKeys | backend/env_loader.py:16-30 | no contract; the names the lines assign, used by `OnlyAssignedKeysChange` |
| EnvLoader.FirstValue | backend/env_loader.py:28-30 | no contract; the independent value of a name's first assignment, against which `FirstOccurrenceWins` is proved |
| EnvLoader.LastValue | backend/env_loader.py:28-30 | no contract; the independent value of a name's last assignment, against which `LastOccurrenceWins` is proved |
| EnvLoader.OnlyAssignedKeysChange | backend/env_loader.py:16-30 | names afterwards are those before plus those assigned; every other entry is unchanged |
| EnvLoader.FirstOccurrenceWins | backend/env_loader.py:28-30 | without override, names already set keep their values and a new name takes its first assignment |
| EnvLoader.FirstValueIsAssigned | backend/env_loader.py:28-30 | without override, a name never assigned and not set before stays unset |
| EnvLoader.LastOccurrenceWins | backend/env_loader.py:28-30 | with override, the last assignment of a name decides its value |
| EnvLoader.LoadedEnv | backend/env_loader.py:12-16 | a missing path, one that is not a file, or a read that raises leaves the environment as it was |
| EnvLoader.ReadFails | backend/env_loader.py:13-16 | no contract; the file exists and is a file, but `read_text` raises |
| EnvLoader.LoadedAll | backend/env_loader.py:38-40 | no contract; the candidates in order, stopping at the first whose read raises, characterised by `BackendFileFirst` and `BackendReadFailureStops` |
| EnvLoader.AnyReadFails | backend/env_loader.py:39-40 | no contract; some candidate's read raises, what `LoadEnvLocal` reports |
| EnvLoader.BackendFileFirst | backend/env_loader.py:33-40 | without override, whatever the backend file set survives the root file |
| EnvLoader.BackendReadFailureStops | backend/env_loader.py:39-40 | when reading the backend file raises, the root file is never loaded and the environment is as before |
| EnvLoader.ApplyNextLine | backend/env_loader.py:16-30 | one more line of the loop is one more application of that line |
| EnvLoader.SkippedLineEffect | backend/env_loader.py:18-21 | a blank, comment or `=`-less line leaves the environment unchanged |
| EnvLoader.EmptyKeySkipped | backend/env_loader.py:26-27 | a line whose text before its first `=` is blank, such as ` =v`, assigns nothing |
| EnvLoader.SplitLineParse | backend/env_loader.py:23-27 | a proof step of `LoadEnvFile`'s loop, not a property: the loop's key and value for a split line are the ones `ParseLine` gives |
| EnvLoader.SplitLineEffect | backend/env_loader.py:26-30 | a proof step of `LoadEnvFile`'s loop, not a property: the loop's two guards and assignment have the effect of `Apply` |
| EnvLoader.Environment.constructor | backend/env_loader.py:28-30 | the process environment `os.environ` holds the given names and values |
| EnvLoader.Environment.LoadEnvFile | backend/env_loader.py:7-30 | whether the read raised, and the new environment as the reference definition applied to the old one: the file's lines in order, nothing when the read raises |
| EnvLoader.Environment.LoadEnvLocal | backend/env_loader.py:33-40 | the backend directory's `.env.local`, then the root's, in that order, stopping at a read that raises, which it reports |

## Left out

- TokenUsage.EstimateTokens: states only the fallback case; the tokenizer's own count is a parameter, because the Hugging Face tokenizer and its model download are not modelled.
- TokenUsage.TokenLedger.Add: the `str(text)` coercion of non-string arguments is not modelled; texts are strings.
- TokenUsage.TokenLedger: counts are natural numbers, as every estimate is a length; the insertion order of the breakdown dict is not modelled (it is a map).
- TokenUsage.TokenLedger.Report: the JSON printing of the payload is I/O and is left out; the method returns the payload.
- JsonExtract: `json.loads` is a parameter; exceptions other than `JSONDecodeError` (for instance a recursion error on deep nesting) are not modelled.
- JsonExtract: the progress messages printed by both functions are I/O and are left out.
- PdfText.ExtractPdfText: opening the PDF and extracting each page's text belong to the PDF library; the pages are a parameter.
- Prompts.Substitute: variable values are strings; the `str()` that `safe_substitute` applies to other values is not modelled.
- Prompts.PromptService.Get: the names listed with a missing prompt are a set; their sorted display in the message is not modelled.
- Prompts: YAML mapping keys are modelled as strings only; YAML parsing itself is a parameter (`None` when reading or parsing fails).
- Prompts.ResolvePromptPath: `Path.resolve()` and the module's directory are not modelled; the directory is a parameter and paths are joined with `/`.
- Prompts: the `PromptTemplate` import and the LangChain side of prompting are not part of this model.
- EnvLoader.Environment.LoadEnvFile: reading the file is a parameter, the decoded text or `None` when `read_text` raises (bytes that are not UTF-8, no permission); the model returns `raised` with the environment untouched instead of propagating the exception, and which exception it is is not modelled; a name or value holding a NUL byte is not modelled: there `os.environ[key] = value` raises, the exception ends the call and the rest of the file is not applied, while the model stores the entry and goes on; platform-specific upper-casing of names is not modelled either.
- EnvLoader.Environment.LoadEnvLocal: the backend and root directories are parameters, as `Path(__file__).resolve()` is not modelled; an exception from the backend file's read stops the loop before the root file, and the model reports it as `raised` rather than propagating it to the caller.
- The model gateways, the agent, the tools, app.py, the LaTeX-to-PDF conversion and the frontend are not part of this model.
