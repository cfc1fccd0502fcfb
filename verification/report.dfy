/** The message layer of `run_agent`: turning the agent's answer into the
    report, turning an exception into the error message, and the one message
    a run hands to the chat service. */
module Reporting {
  import opened Text
  import opened Sanitizer

  /** What `agent_executor.invoke` ends in: the answer's `output` (the empty
      string when the key is missing) or the text of the exception it raised. */
  datatype AgentResult = Ok(output: string) | Fault(text: string)

  const FinalAnswerMarker: string := "Final Answer:"
  const NoNewsPhrase: string := "no news"
  /** The answer the prompt tells the agent to give when there is no news. */
  const NoNewsAnswer: string := "No news found."
  const MaxErrorDetail: nat := 300

  const ReportHeader: string := "\U{1F4CA} <b>Market Intelligence Report</b>\n"
  const FallbackHeader: string := "\U{1F4CA} <b>Market Update</b>\n"
  const FallbackNotice: string := "\n\n\U{26A0}\U{FE0F} No new items found in RSS feeds."
  const ErrorHeader: string := "\U{274C} <b>System Error</b>\n"

  /** `raw_output.replace("Final Answer:", "").strip()`. */
  function CleanOutput(raw: string): (clean: string)
    ensures |clean| <= |raw|
    ensures clean != [] ==> !IsWs(clean[0]) && !IsWs(clean[|clean| - 1])
  {
    ReplaceByEmptyShrinks(raw, FinalAnswerMarker);
    Strip(Replace(raw, FinalAnswerMarker, ""))
  }

  lemma CleanOutputOf(raw: string, replaced: string)
    requires Replace(raw, FinalAnswerMarker, "") == replaced
    ensures CleanOutput(raw) == Strip(replaced)
  {
  }

  /** `not clean_output or "no news" in clean_output.lower()`. */
  predicate ReportsNothing(clean: string) {
    clean == [] || Contains(LowerAscii(clean), NoNewsPhrase)
  }

  /** The message sent when the agent found nothing to report. */
  function FallbackReport(date: string): string {
    FallbackHeader + date + FallbackNotice
  }

  /** The message that carries the agent's report. */
  function IntelligenceReport(date: string, body: string): string {
    ReportHeader + date + "\n\n" + body
  }

  /** The report `run_agent` builds from the agent's raw output. */
  function FormatReport(raw: string, date: string): string {
    var clean := CleanOutput(raw);
    if ReportsNothing(clean) then FallbackReport(date) else IntelligenceReport(date, clean)
  }

  /** `safe_html(str(e))[:300]`. */
  function ErrorDetail(err: string): (d: string)
    ensures |d| == if |Escape(err)| <= MaxErrorDetail then |Escape(err)| else MaxErrorDetail
    ensures StartsWith(Escape(err), d)
    ensures NoAngle(d)
    ensures |Escape(err)| <= MaxErrorDetail ==> d == Escape(err) && Safe(d) && Unescape(d) == err
  {
    var e := Escape(err);
    EscapeIsSafe(err);
    UnescapeEscape(err);
    var d := Take(e, MaxErrorDetail);
    assert forall k :: 0 <= k < |d| ==> d[k] == e[k];
    d
  }

  /** The message sent when the run raised. */
  function ErrorMessage(date: string, err: string): string {
    ErrorHeader + date + "\n\n<code>" + ErrorDetail(err) + "</code>"
  }

  /** The messages one run of `run_agent` hands to `send_to_telegram`, in order. */
  function RunAgent(date: string, result: AgentResult): seq<string> {
    match result
    case Ok(output) => [FormatReport(output, date)]
    case Fault(text) => [ErrorMessage(date, text)]
  }

  // ---------------------------------------------------------------------------
  // The report

  /** The two report shapes differ whatever the body: the headers part at
      their thirteenth character (`U` of `Update`, `I` of `Intelligence`). */
  lemma FallbackIsNotReport(date: string, body: string)
    ensures FallbackReport(date) != IntelligenceReport(date, body)
  {
    var f, r := FallbackReport(date), IntelligenceReport(date, body);
    assert f[12] == FallbackHeader[12] == 'U';
    assert r[12] == ReportHeader[12] == 'I';
  }

  /** The fallback is sent exactly when the cleaned output is empty or
      mentions "no news" in any letter case; otherwise the report carries
      the cleaned output, which is then non-empty and has no whitespace at
      either end. */
  lemma FormatReportCases(raw: string, date: string)
    ensures FormatReport(raw, date) == FallbackReport(date) <==> ReportsNothing(CleanOutput(raw))
    ensures var clean := CleanOutput(raw);
      !ReportsNothing(clean) ==>
        && FormatReport(raw, date) == IntelligenceReport(date, clean)
        && clean != [] && !IsWs(clean[0]) && !IsWs(clean[|clean| - 1])
  {
    FallbackIsNotReport(date, CleanOutput(raw));
  }

  /** An answer made only of whitespace (the empty answer included) gives
      the fallback. */
  lemma BlankOutputGivesFallback(raw: string, date: string)
    requires forall k :: 0 <= k < |raw| ==> IsWs(raw[k])
    ensures FormatReport(raw, date) == FallbackReport(date)
  {
    MissingCharNotContained(raw, FinalAnswerMarker, 0);
    ReplaceAbsent(raw, FinalAnswerMarker, "");
  }

  /** The answer the prompt asks for when there is no news gives the fallback. */
  lemma NoNewsAnswerGivesFallback(date: string)
    ensures FormatReport(NoNewsAnswer, date) == FallbackReport(date)
  {
    NoNewsAnswerIsClean();
    NoNewsAnswerSaysNoNews();
  }

  lemma NoNewsAnswerIsClean()
    ensures CleanOutput(NoNewsAnswer) == NoNewsAnswer
  {
    var s := NoNewsAnswer;
    assert forall k :: 0 <= k < |s| ==> s[k] != FinalAnswerMarker[0];
    MissingCharNotContained(s, FinalAnswerMarker, 0);
    ReplaceAbsent(s, FinalAnswerMarker, "");
    StripUnchanged(s);
    CleanOutputOf(s, s);
  }

  lemma NoNewsAnswerSaysNoNews()
    ensures Contains(LowerAscii(NoNewsAnswer), NoNewsPhrase)
  {
    var l := LowerAscii(NoNewsAnswer);
    assert l[0..7] == NoNewsPhrase by {
      assert l[0] == 'n' && l[1] == 'o' && l[2] == ' ' && l[3] == 'n';
      assert l[4] == 'e' && l[5] == 'w' && l[6] == 's';
    }
    ContainsAt(l, NoNewsPhrase, 0);
  }

  /** Removing the marker from the front of a marked answer leaves the
      line break and the body. */
  lemma ReplaceMarkerLine(body: string)
    requires !Contains(body, FinalAnswerMarker)
    ensures Replace(FinalAnswerMarker + "\n" + body, FinalAnswerMarker, "") == "\n" + body
  {
    var rest := "\n" + body;
    assert !Contains(rest, FinalAnswerMarker) by {
      Mismatch(rest, FinalAnswerMarker, 0);
      assert rest[1..] == body;
    }
    assert FinalAnswerMarker + "\n" + body == FinalAnswerMarker + rest;
    ReplaceLeading(FinalAnswerMarker, rest, "");
  }

  lemma StripLeadingBreak(body: string)
    requires body != [] && !IsWs(body[0]) && !IsWs(body[|body| - 1])
    ensures Strip("\n" + body) == body
  {
    var rest := "\n" + body;
    assert TrimStart(rest) == body by {
      assert rest[1..] == body;
    }
    StripUnchanged(body);
    assert TrimEnd(body) == body;
  }

  /** An answer that opens with the marker and a line break is reported
      with the marker and the line break gone and the rest passed on as it
      is: markup the agent writes reaches the message without escaping. */
  lemma MarkedAnswerIsVerbatim(body: string, date: string)
    requires body != [] && !IsWs(body[0]) && !IsWs(body[|body| - 1])
    requires !Contains(body, FinalAnswerMarker)
    requires !Contains(LowerAscii(body), NoNewsPhrase)
    ensures FormatReport(FinalAnswerMarker + "\n" + body, date) == IntelligenceReport(date, body)
  {
    ReplaceMarkerLine(body);
    StripLeadingBreak(body);
    CleanOutputOf(FinalAnswerMarker + "\n" + body, "\n" + body);
  }

  /** The bullet shape the prompt asks for comes through with its markup. */
  lemma BulletAnswerIsVerbatim(date: string)
    ensures FormatReport(FinalAnswerMarker + "\n" + "\U{2022} <b>X</b>: Y", date)
         == IntelligenceReport(date, "\U{2022} <b>X</b>: Y")
  {
    var body := "\U{2022} <b>X</b>: Y";
    assert forall k :: 0 <= k < |body| ==> body[k] != FinalAnswerMarker[0];
    MissingCharNotContained(body, FinalAnswerMarker, 0);
    var l := LowerAscii(body);
    assert forall k :: 0 <= k < |l| ==> l[k] != NoNewsPhrase[0];
    MissingCharNotContained(l, NoNewsPhrase, 0);
    MarkedAnswerIsVerbatim(body, date);
  }

  /** One pass of `replace` can create the marker it removes, so the cleaned
      output may still contain it: `FinalFinal Answer: Answer:` cleans to
      `Final Answer:`. */
  lemma MarkerCanReappear()
    ensures CleanOutput("Final" + FinalAnswerMarker + " Answer:") == FinalAnswerMarker
  {
    var m := FinalAnswerMarker;
    var p, tail := "Final", " Answer:";
    NoMarkerStartsIn(p, m + tail);
    InnerMarkerRemoved(p, m, tail);
    MarkerHalves();
    assert "Final" + m + " Answer:" == p + (m + tail);
    StripUnchanged(m);
    CleanOutputOf(p + (m + tail), m);
  }

  /** One pass removes a marker that no earlier position begins, and keeps
      what is around it. */
  lemma InnerMarkerRemoved(p: string, m: string, tail: string)
    requires m != [] && |tail| < |m|
    requires forall i :: 0 <= i < |p| ==> !StartsWith((p + (m + tail))[i..], m)
    ensures Replace(p + (m + tail), m, "") == p + tail
  {
    ReplaceLeading(m, tail, "");
    ReplaceKeepsPrefix(p, m + tail, m, "");
    assert [] + tail == tail;
  }

  lemma MarkerHalves()
    ensures "Final" + " Answer:" == FinalAnswerMarker
  {
  }

  lemma NoMarkerStartsIn(p: string, t: string)
    requires p == "Final" && t != [] && t[0] == 'F'
    ensures forall i :: 0 <= i < |p| ==> !StartsWith((p + t)[i..], FinalAnswerMarker)
  {
    forall i | 0 <= i < |p|
      ensures !StartsWith((p + t)[i..], FinalAnswerMarker)
    {
      var u := (p + t)[i..];
      if i == 0 {
        assert u[5] == t[0];
        Mismatch(u, FinalAnswerMarker, 5);
      } else {
        Mismatch(u, FinalAnswerMarker, 0);
      }
    }
  }

  // ---------------------------------------------------------------------------
  // The error message

  /** The cut at 300 characters can split an entity: an error text of 297
      letters and an `&` leaves `&am`, a raw `&` that begins no entity. */
  lemma ErrorDetailCanCutEntity()
    ensures var d := ErrorDetail(seq(297, _ => 'a') + "&");
      d == seq(297, _ => 'a') + "&am" && !Safe(d)
  {
    var a := seq(297, _ => 'a');
    assert Plain(a);
    EscapeFixesPlain(a);
    EscapeConcat(a, "&");
    assert Escape("&") == "&amp;";
    var e := a + "&amp;";
    var d := e[..MaxErrorDetail];
    assert d == a + "&am";
    assert d[297] == '&' && |d[297..]| == 3;
    assert !EntityAt(d, 297);
  }

  /** An error message never looks like a report: they differ in their
      first character. */
  lemma ErrorMessageIsNotReport(date: string, err: string, raw: string)
    ensures ErrorMessage(date, err) != FormatReport(raw, date)
  {
    assert ErrorMessage(date, err)[0] == ErrorHeader[0];
    assert FallbackReport(date)[0] == FallbackHeader[0];
    assert IntelligenceReport(date, CleanOutput(raw))[0] == ReportHeader[0];
  }

  /** Every run sends exactly one message: the error message when the agent
      raised, otherwise the report of its output. */
  lemma OneMessagePerRun(date: string, result: AgentResult)
    ensures var sent := RunAgent(date, result);
      && |sent| == 1
      && (StartsWith(sent[0], ErrorHeader) <==> result.Fault?)
      && (result.Fault? ==> sent[0] == ErrorMessage(date, result.text))
      && (result.Ok? ==> sent[0] == FormatReport(result.output, date))
  {
    match result
    case Ok(output) =>
      var m := FormatReport(output, date);
      assert FallbackReport(date)[0] == FallbackHeader[0];
      assert IntelligenceReport(date, CleanOutput(output))[0] == ReportHeader[0];
      Mismatch(m, ErrorHeader, 0);
    case Fault(text) =>
      var m := ErrorMessage(date, text);
      assert m[..|ErrorHeader|] == ErrorHeader;
  }
}
