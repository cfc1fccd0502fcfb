# PersonalNewsBot — verified model of the message layer

PersonalNewsBot is a script, `main.py`, that runs `run_agent()` once per invocation (main.py:133-134). It has an LLM
agent call a news tool, `fetch_indian_market_rss`. The tool reads the
Livemint and Economic Times RSS feeds. The script then sends the agent's
report to a Telegram chat in HTML parse mode. If anything raises, it sends
an error message to the chat instead.

This project models the string logic that decides which text reaches that
message, and proves properties of it in Dafny. There are four modules:

- `Text` (`text.dfy`) holds the parts of Python's `str` that the code uses:
  - `str.split()` with no argument, `" ".join`, `strip()`;
  - `replace` as one left-to-right pass over non-overlapping occurrences;
  - the `in` operator, `lower()` and slicing `s[:n]`.
- `Sanitizer` (`sanitizer.dfy`) models `safe_html`, which is
  `html.escape(text, quote=False)`, both character by character and as the
  library's three `replace` passes. It also gives an `Unescape` to state the
  round trip against.
- `FeedAggregator` (`feed.dfy`) models the news tool. `Aggregate` is the
  `for url` loop and `AppendSource` is the inner `for entry` loop, both
  written as methods. `AppendSource` is proved against `EntryRecords`,
  and `Aggregate` against `AllRecords`, the concatenation of each source's
  `SourceRecords` in list order.
- `Reporting` (`report.dfy`) models three things in `run_agent`:
  - how the agent's answer becomes the report;
  - how an exception becomes the `System Error` message;
  - the one message that each run hands to `send_to_telegram`.

`feedparser.parse` is a parameter, `parse: string -> Feed`. A feed is
either `Parsed(entries)` or `FetchFailed`. An entry is either
`Item(title, link, desc)`, with the description already reduced to plain
text, or `Raises`, an entry on which the loop body throws. The `except
Exception: continue` around a source keeps the records that source has
already appended and moves on to the next URL. The model reproduces this:
the records of a source stop at its first raising entry. The agent's
result is `Ok(output) | Fault(text)`.

The comment on `send_to_telegram` (main.py:88-91) expects every message
to be HTML-safe. The error path does not always keep that promise:
main.py:129 escapes the error text first and then cuts it at 300
characters, so the cut can split an entity. The model follows the code.
`ErrorDetail` promises exactly the first 300 characters of the escaped
text (or all of it), with no raw `<` or `>`. `ErrorDetailCanCutEntity`
exhibits a raw `&` left at the end.

## Model

| member | source | states |
|---|---|---|
| `Text.Replace` | main.py:118 | `str.replace` as one left-to-right pass; a definition without a contract, whose properties are stated by `ReplaceAbsent`, `ReplaceByEmptyShrinks`, `ReplaceLeading`, `ReplaceKeepsPrefix` and `EscapeMatchesHtmlEscape` |
| `Text.LowerAscii` | main.py:120 | `lower()` on ASCII letters; a definition without a contract, used by `ReportsNothing` and stated through `FormatReportCases` and `NoNewsAnswerGivesFallback` |
| `Text.Take` | main.py:46-49 | `s[:n]` has length min(n, len(s)) and is a prefix of `s` |
| `Text.Contains` | main.py:45 | the `in` operator on strings (also at main.py:120); a definition without a contract, whose properties are stated by `ContainsIff` and `MissingCharNotContained` |
| `Text.ContainsIff` | main.py:45 | `sub in s` holds exactly when `sub` occurs at some position of `s` |
| `Text.MissingCharNotContained` | main.py:45 | a string lacking one character of `sub` does not contain `sub` |
| `Text.ReplaceAbsent` | main.py:118 | `replace` leaves a string in which the pattern does not occur unchanged |
| `Text.ReplaceByEmptyShrinks` | main.py:118 | deleting occurrences never makes the string longer |
| `Text.ReplaceLeading` | main.py:118 | a pattern at the front is replaced and the pass goes on after it |
| `Text.ReplaceKeepsPrefix` | main.py:118 | a prefix in which no occurrence starts is copied as it is |
| `Text.Strip` | main.py:118 | `strip()` is the substring between the leading and trailing whitespace; it is empty exactly when the input is all whitespace, and otherwise starts and ends with non-whitespace |
| `Text.Split` | main.py:49 | `split()` yields non-empty words without whitespace; where the words break is stated by `SplitOfBlank`, `SplitOfWord`, `SplitSkipsBlank` and `SplitAppendWs`, which together fix it on every input |
| `Text.SplitOfBlank` | main.py:49 | `split()` of an empty or all-whitespace text has no words |
| `Text.SplitOfWord` | main.py:49 | `split()` of one word without whitespace is that word |
| `Text.SplitAppendWs` | main.py:49 | the words of `a + b`, where `b` starts with whitespace, are the words of `a` followed by the words of `b`; with `SplitOfBlank`, `SplitOfWord` and `SplitSkipsBlank` this fixes `split()` on every input, by induction on length |
| `Text.SplitSkipsBlank` | main.py:49 | leading whitespace is skipped: a text starting with whitespace has the same words as the text after that character |
| `Text.SplitEmptyIff` | main.py:49 | `split()` gives no words exactly when the text has no non-whitespace character |
| `Text.Join` | main.py:49 | `sep.join(ws)`; a definition without a contract, whose properties are stated by `JoinAppend`, `CollapseIsCollapsed` and `SentinelIffNoRecords` |
| `Text.JoinAppend` | main.py:49 | joining two non-empty lists put together is joining each, with one separator between them |
| `Text.Collapse` | main.py:49 | `" ".join(s.split())`; a definition without a contract, whose properties are stated by `CollapseIsCollapsed`, `CollapseKeepsVisible`, `CollapseIdempotent` and `CollapseAround` |
| `Text.CollapseAround` | main.py:49 | a whitespace character between two texts that have words becomes exactly one space between their collapsed forms |
| `Text.CollapseIsCollapsed` | main.py:49 | `" ".join(s.split())` has only `' '` as whitespace, no leading or trailing space and no two adjacent spaces |
| `Text.CollapseKeepsVisible` | main.py:49 | collapsing keeps every non-whitespace character, in order |
| `Text.CollapseIdempotent` | main.py:49 | collapsing an already collapsed string changes nothing |
| `Sanitizer.Escape` | main.py:25-27 | the output of `safe_html` is never shorter than its input |
| `Sanitizer.EscapeIsSafe` | main.py:25-27 | the output has no raw `<` or `>`, and every `&` in it begins `&amp;`, `&lt;` or `&gt;` |
| `Sanitizer.UnescapeEscape` | main.py:25-27 | unescaping the output gives back the input |
| `Sanitizer.EscapeFixesPlain` | main.py:27 | the output equals the input exactly when the input has none of `&`, `<`, `>` |
| `Sanitizer.HtmlEscape` | main.py:27 | `html.escape(s, quote=False)` as three `replace` passes, `&` first; a definition without a contract, tied to `Escape` by `EscapeMatchesHtmlEscape` |
| `Sanitizer.EscapeMatchesHtmlEscape` | main.py:27 | the character-wise escaper equals the library's three `replace` passes with `&` first |
| `Sanitizer.AmpersandLastDoubleEncodes` | main.py:27 | replacing `&` after `<` would turn `<` into `&amp;lt;`; the library order gives `&lt;` |
| `FeedAggregator.NormaliseDesc` | main.py:49 | the description is at most 200 characters, exactly min(200, collapsed length), a prefix of the collapsed text, and has no leading space, no two adjacent spaces and no whitespace other than `' '` |
| `FeedAggregator.TrailingSpaceAfterCut` | main.py:49 | the cut at 200 can leave a trailing space |
| `FeedAggregator.SourceTag` | main.py:45 | `"Livemint" if "livemint" in url else "ET"`; a definition without a contract, instantiated by `LivemintTag` |
| `FeedAggregator.EntryRecord` | main.py:47-58 | the record of one entry; a definition without a contract, whose properties are stated by `RecordFieldsAreSafe` and `RecordsStartWithPrefix` |
| `FeedAggregator.AggregateText` | main.py:62 | the tool's return value; a definition without a contract, whose properties are stated by `SentinelIffNoRecords` and `AllFailedGivesSentinel` |
| `FeedAggregator.FormatRecord` | main.py:56-58 | every record begins with `SOURCE: ` |
| `FeedAggregator.RecordFieldsAreSafe` | main.py:52-58 | a record holds the escaped title, the verbatim link and the escaped normalised description; title and description are HTML-safe and unescape to the originals |
| `FeedAggregator.FetchIndianMarketRss` | main.py:34-62 | the tool returns the text of the records of the two feeds in list order, or the sentinel |
| `FeedAggregator.Aggregate` | main.py:41-62 | the outer loop's result is `AggregateText(AllRecords(urls, parse))`: the records joined with `"\n"`, or the sentinel when there are none |
| `FeedAggregator.AppendSource` | main.py:46-60 | the inner loop appends the records of the first six entries up to the first entry that raises, and keeps what was there before |
| `FeedAggregator.EntryRecords` | main.py:46-58 | the records that the `for entry` body appends for a run of entries, stopping at the first raising one; a definition without a contract, whose properties are stated by `EntryRecordsUpToRaise` and `BatchRecords` |
| `FeedAggregator.SourceRecords` | main.py:43-60 | the records one pass of the `for url` body appends; a definition without a contract, whose properties are stated by `SourceRecordsInFeedOrder`, `RaiseKeepsEarlierRecords` and `AtMostSixPerSource` |
| `FeedAggregator.AllRecords` | main.py:42-60 | the records the whole outer loop builds; a definition without a contract, whose properties are stated by `SourceIsolation`, `AllRecordsAppend`, `AllRecordsBound` and `TwoSources` |
| `FeedAggregator.EntryRecordsUpToRaise` | main.py:46-60 | the records of a run of entries are those before the first raising entry, one per entry, in entry order |
| `FeedAggregator.BatchRecords` | main.py:46 | only the first six entries are looked at, and at most six records result |
| `FeedAggregator.SourceRecordsInFeedOrder` | main.py:42-60 | a source contributes the records of its entries 0..k-1 in feed order, where k is its first raising entry among the first six |
| `FeedAggregator.RaiseKeepsEarlierRecords` | main.py:46-60 | if entry k raises, the records of entries 0..k-1 stay and the later entries give none |
| `FeedAggregator.AtMostSixPerSource` | main.py:43-60 | at most six records come from one source, and a failed fetch gives none |
| `FeedAggregator.AllRecordsAppend` | main.py:42 | sources are visited in list order |
| `FeedAggregator.SourceIsolation` | main.py:42-60 | what one source contributes leaves the records of the sources before and after it unchanged |
| `FeedAggregator.AllRecordsBound` | main.py:42-46 | there are at most six records per URL in all |
| `FeedAggregator.RecordsStartWithPrefix` | main.py:56-58 | every record of the result begins with `SOURCE: ` |
| `FeedAggregator.SentinelIffNoRecords` | main.py:62 | the tool returns `No current news found.` exactly when no record was produced |
| `FeedAggregator.AllFailedGivesSentinel` | main.py:59-62 | if every fetch fails, there are no records and the tool returns the sentinel |
| `FeedAggregator.LivemintTag` | main.py:37-45 | the first feed's records are tagged `Livemint` |
| `FeedAggregator.TwoSources` | main.py:37-42 | with the tool's two URLs, the result is the first feed's records followed by the second's |
| `FeedAggregator.ThreeAndThreeGiveSix` | main.py:42-46 | two feeds of three good entries each give six records |
| `Reporting.CleanOutput` | main.py:117-118 | the cleaned output is no longer than the raw output and has no whitespace at either end |
| `Reporting.ReportsNothing` | main.py:120 | the condition `not clean_output or "no news" in clean_output.lower()`; a definition without a contract, whose properties are stated by `FormatReportCases`, `BlankOutputGivesFallback` and `NoNewsAnswerGivesFallback` |
| `Reporting.FallbackReport` | main.py:121 | the `Market Update` message; a definition without a contract, whose properties are stated by `FallbackIsNotReport` and `FormatReportCases` |
| `Reporting.IntelligenceReport` | main.py:123 | the `Market Intelligence Report` message; a definition without a contract, whose properties are stated by `FallbackIsNotReport`, `FormatReportCases` and `MarkedAnswerIsVerbatim` |
| `Reporting.FormatReport` | main.py:117-123 | the report built from the agent's answer; a definition without a contract, whose properties are stated by `FormatReportCases` and the scenario rows below |
| `Reporting.FallbackIsNotReport` | main.py:120-123 | the fallback message differs from every intelligence report |
| `Reporting.FormatReportCases` | main.py:117-123 | the fallback is sent exactly when the cleaned output is empty or contains "no news" in any letter case; otherwise the report is the header, the date and the cleaned output, which is then non-empty and trimmed |
| `Reporting.BlankOutputGivesFallback` | main.py:117-121 | an empty or all-whitespace answer gives the fallback |
| `Reporting.NoNewsAnswerGivesFallback` | main.py:120-121 | the answer `No news found.` gives the fallback |
| `Reporting.MarkedAnswerIsVerbatim` | main.py:116-123 | `Final Answer:` plus a line break plus a body is reported with the body unchanged and unescaped, when the body is non-empty with no whitespace at either end, does not contain `Final Answer:`, and its ASCII-lowered form does not contain `no news` (otherwise main.py:120-121 sends the fallback) |
| `Reporting.BulletAnswerIsVerbatim` | main.py:116-123 | `Final Answer:\n• <b>X</b>: Y` is reported as the body `• <b>X</b>: Y` |
| `Reporting.MarkerCanReappear` | main.py:118 | `FinalFinal Answer: Answer:` cleans to `Final Answer:`: the marker can survive the single pass |
| `Reporting.ErrorDetail` | main.py:129 | the error detail has exactly min(300, length of the escaped error text) characters, is a prefix of the escaped error text and has no raw `<` or `>`; when the escaped text fits, it is all of it, HTML-safe, and unescapes to the error text |
| `Reporting.ErrorDetailCanCutEntity` | main.py:129 | 297 letters and an `&` give a detail ending in `&am`, which is not HTML-safe |
| `Reporting.ErrorMessage` | main.py:129-130 | the `System Error` message; a definition without a contract, whose properties are stated by `ErrorDetail`, `ErrorMessageIsNotReport` and `OneMessagePerRun` |
| `Reporting.RunAgent` | main.py:112-131 | the messages one run hands to `send_to_telegram`; a definition without a contract, whose properties are stated by `OneMessagePerRun` |
| `Reporting.ErrorMessageIsNotReport` | main.py:120-130 | an error message never equals a report |
| `Reporting.OneMessagePerRun` | main.py:112-131 | every run sends exactly one message, which holds by construction of `RunAgent` and rests on `send_to_telegram` never raising (see Left out); the message has the `System Error` header exactly when the agent raised; it is the error message on a fault and the formatted report otherwise |

## Left out

- Loading the environment variables and the `ValueError` when one is missing (main.py:17-22). This is process configuration.
- The LLM, the prompt, `create_tool_calling_agent` and `AgentExecutor` with `max_iterations=5` (main.py:30, 64-84, 114). Their behaviour lives in libraries that are not part of this model. The agent's result is the input `Ok(output) | Fault(text)`. An answer without an `output` key is `Ok("")`, matching `response.get('output', '')`.
- `feedparser.parse` and `BeautifulSoup(...).get_text()` (main.py:44, 48). They are foreign parsers. Parsing is the parameter `parse`, and entries arrive with plain-text fields. An entry missing its `title` or `link`, or any other failure in the loop body, is the `Raises` entry.
- `send_to_telegram` (main.py:87-106) is HTTP I/O and logging. It catches its own exceptions, so it never sends a run into the `except` branch. Only the messages handed to it are modelled, as `RunAgent`'s result.
- `datetime.now().strftime` (main.py:109). The date is a string parameter.
- The query argument of the tool is ignored, as in the code.
- Whitespace and case. `IsWs` is the fixed set of characters for which Python's `str.isspace()` holds, and `LowerAscii` lowers only `A`-`Z`. Full Unicode `str.lower()`, where some characters change length, is not modelled.
- The `ET` tag is given by `SourceTag`'s definition. No separate lemma instantiates it for the Economic Times URL.
- `FeedAggregator.AppendSource` takes the per-entry record layout as its parameter `render`, and `Aggregate` passes `Renderer(SourceTag(url))`. The statements of the loop body (escape, normalise, format) are written once, as the function `EntryRecord`, rather than as separate statements inside the loop.
