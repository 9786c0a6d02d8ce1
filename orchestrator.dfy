/**
 * The control flow of `main`: after the button press, upload the document, then ask
 * for its analysis with the two fixed questions, then show the tables. The two
 * backend calls are parameters, so every combination of their replies can be followed
 * without any I/O; the run records which calls were made.
 */
module Orchestrator {
  import opened Wrappers
  import opened TableGrid
  import opened Segmentation

  datatype Document = Document(name: string, content: seq<bv8>)

  datatype Query = Query(text: string)

  /** The questions sent with every analysis request. */
  const AnalysisQueries: seq<Query> :=
    [Query("What is the total amount due?"), Query("What is the due date?")]

  /**
   * What the upload helper returns: a dictionary holding 'error', or the backend's
   * reply whose decoded body names the stored document.
   */
  datatype UploadReply = UploadError(error: string) | UploadOk(s3Uri: string)

  /** The part of the decoded analysis the table step reads. */
  datatype AnalysisResult = AnalysisResult(tables: seq<Fragment>)

  /** The analysis reply's `body`: empty, or a JSON text decoded to a result. */
  datatype ResponseBody = EmptyBody | Decoded(result: AnalysisResult)

  /** What the analysis helper returns: a dictionary holding 'error', or the reply. */
  datatype AnalyzeReply = AnalyzeError(error: string) | AnalyzeOk(body: ResponseBody)

  /** A request sent to the backend. */
  datatype Call = UploadCall(doc: Document) | AnalyzeCall(s3Uri: string, queries: seq<Query>)

  /** What the table part of the result display comes to. */
  datatype TablesView = NoBody | TablesFailed(error: TableError) | TablesShown(grids: seq<Grid>)

  datatype Outcome =
    | Idle
    | NoDocument
    | UploadFailed(error: string)
    | AnalysisFailed(error: string)
    | Processed(tables: TablesView)

  /** The requests made, in order, and where the run ended. */
  datatype Run = Run(calls: seq<Call>, outcome: Outcome)

  /** The table part of `display_dataframes` for a reply body. */
  function DisplayTables(body: ResponseBody): (v: TablesView)
    ensures v.NoBody? <==> body.EmptyBody?
    ensures body.Decoded? ==>
      (v.TablesFailed? <==> body.result.tables == []) &&
      (v.TablesShown? ==> Reconstruct(body.result.tables) == Success(v.grids))
  {
    match body
    case EmptyBody => NoBody
    case Decoded(res) =>
      match Reconstruct(res.tables)
      case Failure(e) => TablesFailed(e)
      case Success(grids) => TablesShown(grids)
  }

  /**
   * `main` for one press of the button (or none) with the file the uploader holds;
   * `upload` and `analyze` stand for the two backend helpers.
   */
  function PressAnalyze(pressed: bool, uploaded: Option<Document>,
                upload: Document -> UploadReply,
                analyze: (string, seq<Query>) -> AnalyzeReply): (run: Run)
    ensures !pressed ==> run == Run([], Idle)
    ensures pressed && uploaded.None? ==> run == Run([], NoDocument)
    ensures pressed && uploaded.Some? && upload(uploaded.value).UploadError? ==>
      run == Run([UploadCall(uploaded.value)], UploadFailed(upload(uploaded.value).error))
    ensures pressed && uploaded.Some? && upload(uploaded.value).UploadOk? ==>
      var uri := upload(uploaded.value).s3Uri;
      var reply := analyze(uri, AnalysisQueries);
      run.calls == [UploadCall(uploaded.value), AnalyzeCall(uri, AnalysisQueries)] &&
      run.outcome == (if reply.AnalyzeError? then AnalysisFailed(reply.error) else Processed(DisplayTables(reply.body)))
  {
    if !pressed then Run([], Idle)
    else match uploaded
      case None => Run([], NoDocument)
      case Some(doc) =>
        match upload(doc)
        case UploadError(e) => Run([UploadCall(doc)], UploadFailed(e))
        case UploadOk(uri) =>
          var calls := [UploadCall(doc), AnalyzeCall(uri, AnalysisQueries)];
          match analyze(uri, AnalysisQueries)
          case AnalyzeError(e) => Run(calls, AnalysisFailed(e))
          case AnalyzeOk(body) => Run(calls, Processed(DisplayTables(body)))
  }

  /** The text `st.error` shows for a run, if any. */
  function ErrorMessage(o: Outcome): (m: Option<string>)
    ensures m.Some? <==> o.NoDocument? || o.UploadFailed? || o.AnalysisFailed?
    ensures o.UploadFailed? || o.AnalysisFailed? ==>
      |o.error| <= |m.value| && m.value[|m.value| - |o.error|..] == o.error
  {
    match o
    case NoDocument => Some("Please enter a valid S3 URI.")
    case UploadFailed(e) => Some("Failed to upload document to S3: " + e)
    case AnalysisFailed(e) => Some("Processing error: " + e)
    case _ => None
  }

  /**
   * The flow rules of `main` after a press: without a file no backend call is made and
   * an error is shown; the analysis is requested exactly when the upload succeeded, as
   * the second and last call; a failed call shows an error ending with the backend's
   * error; the result display (`display_dataframes`) runs exactly when both calls
   * succeeded. It may still show no tables: for an empty body, or when the fragment
   * list is empty and the table step fails.
   */
  lemma FlowRules(uploaded: Option<Document>, upload: Document -> UploadReply,
                  analyze: (string, seq<Query>) -> AnalyzeReply)
    ensures var run := PressAnalyze(true, uploaded, upload, analyze);
      && (uploaded.None? ==> run.calls == [] && ErrorMessage(run.outcome).Some?)
      && ((exists i :: 0 <= i < |run.calls| && run.calls[i].AnalyzeCall?) <==>
          uploaded.Some? && upload(uploaded.value).UploadOk?)
      && (forall i :: 0 <= i < |run.calls| && run.calls[i].AnalyzeCall? ==> i == |run.calls| - 1 == 1)
      && (uploaded.Some? && upload(uploaded.value).UploadError? ==>
          ErrorMessage(run.outcome) == Some("Failed to upload document to S3: " + upload(uploaded.value).error))
      && (uploaded.Some? && upload(uploaded.value).UploadOk? &&
          analyze(upload(uploaded.value).s3Uri, AnalysisQueries).AnalyzeError? ==>
          ErrorMessage(run.outcome) ==
            Some("Processing error: " + analyze(upload(uploaded.value).s3Uri, AnalysisQueries).error))
      && (run.outcome.Processed? <==>
          uploaded.Some? && upload(uploaded.value).UploadOk? &&
          analyze(upload(uploaded.value).s3Uri, AnalysisQueries).AnalyzeOk?)
  {
    var run := PressAnalyze(true, uploaded, upload, analyze);
    if uploaded.Some? && upload(uploaded.value).UploadOk? {
      assert run.calls[1].AnalyzeCall?;
    }
  }
}
