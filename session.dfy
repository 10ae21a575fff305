/** The message handler's state (content.js:4-48) and the flag handling of
    `analyzeCurrentPage` (content.js:51-109). The content script keeps two
    module-level variables: `isAnalyzing`, which makes the analysis
    single-flight, and `analysisResults`, the last analysis the service
    returned. `startAnalysis` is refused while an analysis is in flight; it
    scans the page and, when the scan finds nothing, fails at once without
    calling the service. Otherwise the call stays in flight until the
    service answers; only a successful answer replaces `analysisResults`,
    and either answer clears the flag. `fillForm` is refused when no result
    is kept and otherwise runs the autofill pass against the kept result.
    The transport is not modelled: a request is a method call, and the
    service's answer is the argument of `CompleteAnalysis`. */
module Session {
  import opened JsText
  import opened Dom
  import opened Discovery
  import opened Autofill

  datatype SessionState = SessionState(isAnalyzing: bool, analysisResults: Option<Analysis>)

  /** The background script's answer to `analyzeForm` as the callback at
      content.js:97-103 reads it: a truthy `success` together with the
      `analysis` member (absent or null as `None`), or anything else (no
      response at all, `success` false) together with its `error` member,
      written `""` when absent or empty. */
  datatype ServiceResponse = ServiceSuccess(analysis: Option<Analysis>) | ServiceFailure(error: string)

  /** The ways the two requests are refused. */
  datatype SessionError =
    | AlreadyInProgress
    | NoFormsDetected
    | AnalysisFailed(message: string)
    | NotAnalyzed
    | NoResultsAvailable
    | EntryUnreadable

  /** The `error` string each refusal carries in its reply. An unreadable
      entry fails with the engine's own `TypeError` message, whose wording
      is not part of this model. */
  function ErrorMessage(e: SessionError): string {
    match e
    case AlreadyInProgress => "Analysis already in progress"
    case NoFormsDetected => "No forms detected on this page"
    case AnalysisFailed(m) => m
    case NotAnalyzed => "Please analyze the form first"
    case NoResultsAvailable => "No analysis results available"
    case EntryUnreadable => "Cannot read properties of null (reading 'path')"
  }

  /** What `startAnalysis` does at once: refuse, or send the scanned groups
      to the service and wait. */
  datatype StartOutcome = Refused(error: SessionError) | Submitted(formData: seq<FormGroup>)

  /** A reply the handler sends with `sendResponse`. The `fillForm` reply
      carries `filledCount` only: the pass also counts errors, but the
      handler drops that count (content.js:39). */
  datatype Reply =
    | Failure(error: SessionError)
    | AnalysisReply(analysis: Option<Analysis>)
    | FillReply(filledCount: nat)

  // ---------------------------------------------------------------------
  // The transitions

  /** `startAnalysis` up to the point where the request is sent
      (content.js:9-15, 51-61, 105-107). */
  function StartStep(s: SessionState, doc: Document): (r: (SessionState, StartOutcome))
    requires WellFormed(doc)
    ensures r.0.analysisResults == s.analysisResults
    ensures s.isAnalyzing ==> r == (s, Refused(AlreadyInProgress))
    ensures !s.isAnalyzing ==> (r.1.Submitted? <==> Discover(doc) != [])
    ensures r.0.isAnalyzing <==> s.isAnalyzing || r.1.Submitted?
    ensures r.1.Submitted? ==> r.1.formData == Discover(doc) && r.1.formData != []
    ensures r.1.Refused? ==> r.1.error in {AlreadyInProgress, NoFormsDetected}
  {
    if s.isAnalyzing then (s, Refused(AlreadyInProgress))
    else
      var formData := Discover(doc);
      if |formData| == 0 then (s.(isAnalyzing := false), Refused(NoFormsDetected))
      else (s.(isAnalyzing := true), Submitted(formData))
  }

  /** The service's answer to the call in flight (content.js:16-26, 97-103):
      a success keeps the analysis it carries, a failure keeps the previous
      result, and both end the analysis. A failure always has a message. */
  function CompleteStep(s: SessionState, response: ServiceResponse): (r: (SessionState, Reply))
    requires s.isAnalyzing
    ensures !r.0.isAnalyzing
    ensures response.ServiceSuccess? ==>
      r.0.analysisResults == response.analysis && r.1 == AnalysisReply(response.analysis)
    ensures response.ServiceFailure? ==>
      && r.0.analysisResults == s.analysisResults
      && r.1.Failure? && r.1.error.AnalysisFailed? && ErrorMessage(r.1.error) != ""
    ensures response.ServiceFailure? && response.error != "" ==> r.1 == Failure(AnalysisFailed(response.error))
  {
    match response
    case ServiceSuccess(analysis) => (SessionState(false, analysis), AnalysisReply(analysis))
    case ServiceFailure(error) =>
      (s.(isAnalyzing := false), Failure(AnalysisFailed(if error != "" then error else "Analysis failed")))
  }

  /** `fillForm` (content.js:31-47, 238-241): the reply and the controls'
      state afterwards. Without a kept result nothing is touched; a reply
      that reports a count never reports more fills than recommendations. */
  function FillFormStep(results: Option<Analysis>, doc: Document, st: ControlState): (r: (Reply, ControlState))
    requires WellFormed(doc) && Fits(doc, st)
    ensures Fits(doc, r.1)
    ensures results.None? ==> r == (Failure(NotAnalyzed), st)
    ensures results.Some? && results.value.fields.None? ==> r == (Failure(NoResultsAvailable), st)
    ensures r.0.FillReply? ==>
      results.Some? && results.value.fields.Some? && r.0.filledCount <= |results.value.fields.value|
    ensures r.0.Failure? ==> r.0.error in {NotAnalyzed, NoResultsAvailable, EntryUnreadable}
  {
    match results
    case None => (Failure(NotAnalyzed), st)
    case Some(analysis) =>
      match analysis.fields
      case None => (Failure(NoResultsAvailable), st)
      case Some(fields) =>
        var run := Fill(doc, st, fields);
        (if run.aborted then Failure(EntryUnreadable) else FillReply(run.filledCount), run.state)
  }

  // ---------------------------------------------------------------------
  // Sequences of requests and answers

  /** A `startAnalysis` request on the page as it is then, or the service's
      answer to the call in flight. `fillForm` writes neither variable (see
      `Session.FillForm`), so it does not appear here. */
  datatype Event = StartRequest(doc: Document) | ServiceAnswer(response: ServiceResponse)

  /** The sequences that can happen: every page is well formed, and the
      service only answers while a call is in flight. */
  predicate Feasible(s: SessionState, events: seq<Event>)
    decreases |events|
  {
    events == [] ||
    match events[0]
    case StartRequest(doc) => WellFormed(doc) && Feasible(StartStep(s, doc).0, events[1..])
    case ServiceAnswer(response) => s.isAnalyzing && Feasible(CompleteStep(s, response).0, events[1..])
  }

  function Run(s: SessionState, events: seq<Event>): SessionState
    requires Feasible(s, events)
    decreases |events|
  {
    if events == [] then s
    else
      match events[0]
      case StartRequest(doc) => Run(StartStep(s, doc).0, events[1..])
      case ServiceAnswer(response) => Run(CompleteStep(s, response).0, events[1..])
  }

  /** The analysis of the most recent successful answer in `events`, or
      `initial` when there is none. */
  function LastSuccess(initial: Option<Analysis>, events: seq<Event>): Option<Analysis>
    decreases |events|
  {
    if events == [] then initial
    else
      match events[|events| - 1]
      case ServiceAnswer(ServiceSuccess(analysis)) => analysis
      case _ => LastSuccess(initial, events[..|events| - 1])
  }

  lemma {:induction false} FeasiblePrefix(s: SessionState, events: seq<Event>, n: nat)
    requires Feasible(s, events) && n <= |events|
    ensures Feasible(s, events[..n])
    ensures Feasible(Run(s, events[..n]), events[n..])
    ensures Run(s, events) == Run(Run(s, events[..n]), events[n..])
    decreases n
  {
    if n > 0 {
      var next := match events[0]
        case StartRequest(doc) => StartStep(s, doc).0
        case ServiceAnswer(response) => CompleteStep(s, response).0;
      FeasiblePrefix(next, events[1..], n - 1);
      assert events[..n][1..] == events[1..][..n - 1];
      assert events[1..][n - 1..] == events[n..];
    } else {
      assert events[n..] == events;
    }
  }

  /** The kept result is always the one from the latest successful answer:
      refusals, failed answers and scans that find nothing never change it. */
  lemma {:induction false} KeptResultIsLastSuccess(s: SessionState, events: seq<Event>)
    requires Feasible(s, events)
    ensures Run(s, events).analysisResults == LastSuccess(s.analysisResults, events)
    decreases |events|
  {
    if events != [] {
      var n := |events| - 1;
      FeasiblePrefix(s, events, n);
      KeptResultIsLastSuccess(s, events[..n]);
      var mid := Run(s, events[..n]);
      assert events[n..] == [events[n]];
      assert events[n..][1..] == [];
    }
  }

  /** A request refused as busy leaves no trace: whatever follows happens
      exactly as if it had never been made. */
  lemma BusyStartIsInvisible(s: SessionState, doc: Document, events: seq<Event>)
    requires s.isAnalyzing && WellFormed(doc)
    ensures Feasible(s, [StartRequest(doc)] + events) <==> Feasible(s, events)
    ensures Feasible(s, events) ==> Run(s, [StartRequest(doc)] + events) == Run(s, events)
  {
    assert ([StartRequest(doc)] + events)[1..] == events;
  }

  /** While a call is in flight every further request is refused, so at most
      one analysis is ever in flight; its answer ends it. */
  lemma {:induction false} InFlightUntilAnswered(s: SessionState, events: seq<Event>)
    requires s.isAnalyzing && Feasible(s, events)
    requires forall i :: 0 <= i < |events| ==> events[i].StartRequest?
    ensures Run(s, events) == s
    decreases |events|
  {
    if events != [] {
      InFlightUntilAnswered(s, events[1..]);
    }
  }

  // ---------------------------------------------------------------------
  // The handler's variables

  class Session {
    var isAnalyzing: bool
    var analysisResults: Option<Analysis>

    function State(): SessionState
      reads this
    {
      SessionState(isAnalyzing, analysisResults)
    }

    /** The script's starting state (content.js:4-5). */
    constructor ()
      ensures State() == SessionState(false, None)
    {
      isAnalyzing := false;
      analysisResults := None;
    }

    /** `startAnalysis`, up to the request to the service. */
    method StartAnalysis(doc: Document) returns (outcome: StartOutcome)
      requires WellFormed(doc)
      modifies this
      ensures (State(), outcome) == StartStep(old(State()), doc)
    {
      if isAnalyzing {
        return Refused(AlreadyInProgress);
      }
      isAnalyzing := true;
      var formData := GatherFormData(doc);
      if |formData| == 0 {
        isAnalyzing := false;
        return Refused(NoFormsDetected);
      }
      return Submitted(formData);
    }

    /** The `then`/`catch`/`finally` chain run when the service answers. */
    method CompleteAnalysis(response: ServiceResponse) returns (reply: Reply)
      requires isAnalyzing
      modifies this
      ensures (State(), reply) == CompleteStep(old(State()), response)
    {
      match response {
        case ServiceSuccess(analysis) =>
          analysisResults := analysis;
          reply := AnalysisReply(analysis);
        case ServiceFailure(error) =>
          reply := Failure(AnalysisFailed(if error != "" then error else "Analysis failed"));
      }
      isAnalyzing := false;
    }

    /** `fillForm`: refused without a kept result, otherwise the autofill
        pass on the page. Only the page's controls change. */
    method FillForm(page: Page) returns (reply: Reply)
      requires page.Valid()
      modifies page
      ensures page.Valid() && State() == old(State())
      ensures (reply, page.State()) == FillFormStep(analysisResults, page.doc, old(page.State()))
    {
      if analysisResults.None? {
        return Failure(NotAnalyzed);
      }
      var outcome := page.FillFormWithResults(analysisResults);
      match outcome {
        case NoResults => reply := Failure(NoResultsAvailable);
        case UnreadableEntry => reply := Failure(EntryUnreadable);
        case Counts(filledCount, _) => reply := FillReply(filledCount);
      }
    }
  }
}
