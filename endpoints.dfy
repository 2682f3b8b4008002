/** The two HTTP handlers of backend/app/api/endpoints.py. `upload_resume` checks the file
    name, extracts the text, extracts a profile, stores both in the index and echoes the
    profile; `match_job` forwards to the matching service. The request and the PDF bytes are
    given as the file name and the parsed document. */
module Endpoints {
  import opened Wrappers
  import opened Strings
  import opened Schemas
  import opened Scoring
  import opened Extraction
  import opened VectorStore
  import opened ResumeParser
  import opened Matching

  /** `UploadResponse` */
  datatype UploadResponse = UploadResponse(filename: string, message: string, extractedData: Extracted)

  const UploadedMessage: string := "Resume uploaded and processed successfully."
  const NotPdf: HttpError := HttpError(400, "Only PDF files are supported.")
  const NoText: HttpError := HttpError(400, "Could not extract text from PDF.")
  /** The server's answer when a handler's result fails its response schema. */
  const InvalidResponse: HttpError := HttpError(500, "Internal Server Error")

  /** `str(e)` of an `HTTPException`: the status code, a colon, and the detail. */
  function ErrorText(e: HttpError): (r: string)
    requires e.status >= 0
    ensures var k := |Decimal(e.status)|;
            && k + 2 <= |r| && (forall i :: 0 <= i < k ==> '0' <= r[i] <= '9')
            && DigitsValue(r[..k]) == e.status && r[k..k + 2] == ": " && r[k + 2..] == e.detail
  {
    var code := Decimal(e.status);
    var r := code + ": " + e.detail;
    assert r[..|code|] == code && r[|code|..|code| + 2] == ": " && r[|code| + 2..] == e.detail;
    r
  }

  /** The catch-all handler: whatever was raised inside the `try` becomes a 500 whose detail is
      its text. */
  function Internal(e: HttpError): (r: HttpError)
    requires e.status >= 0
    ensures r.status == 500 && r.detail == ErrorText(e)
  {
    HttpError(500, ErrorText(e))
  }

  /** `{"filename": filename}` updated with every extracted field. */
  function StoredMetadata(filename: string, e: Extracted): (m: Metadata)
    ensures m.Keys == {"filename"} + ToDict(e).Keys
    ensures forall k :: k in ToDict(e) ==> m[k] == ToDict(e)[k]
    ensures "filename" !in ToDict(e) ==> m["filename"] == Text(filename)
  {
    map["filename" := Text(filename)] + ToDict(e)
  }

  /** The stored record carries the uploaded file name: no extracted field is called
      `filename`. */
  lemma StoredIsFiled(filename: string, e: Extracted)
    ensures Filed(StoredMetadata(filename, e)) && StoredMetadata(filename, e)["filename"] == Text(filename)
  {
    assert "filename" !in ToDict(e);
  }

  /** `upload_resume`. `embedded` says whether the index's embedding call succeeds. */
  method UploadResume(index: VectorIndex, extractor: ExtractionService, filename: string, doc: Document, embedded: bool)
    returns (r: Result<UploadResponse, HttpError>)
    modifies index
    ensures !EndsWith(filename, ".pdf") ==> r == Failure(NotPdf) && index.entries == old(index.entries)
    ensures EndsWith(filename, ".pdf") && (PdfText(doc).None? || PdfText(doc) == Some(""))
            ==> r == Failure(Internal(NoText)) && index.entries == old(index.entries)
    ensures EndsWith(filename, ".pdf") && PdfText(doc).Some? && PdfText(doc) != Some("")
            ==> var text := PdfText(doc).value;
                var extracted := ExtractData(extractor, text);
                && r == Success(UploadResponse(filename, UploadedMessage, extracted))
                && index.entries == old(index.entries)
                                    + (if embedded then [Entry(text, StoredMetadata(filename, extracted))] else [])
    ensures AllFiled(old(index.entries)) ==> AllFiled(index.entries)
  {
    if !EndsWith(filename, ".pdf") {
      return Failure(NotPdf);
    }
    var text := ExtractTextFromPdf(doc);
    if text.None? || text.value == "" {
      return Failure(Internal(NoText));
    }
    var extractedData := ExtractData(extractor, text.value);
    var metadata := map["filename" := Text(filename)];
    metadata := metadata + ToDict(extractedData);
    StoredIsFiled(filename, extractedData);
    index.AddResume(text.value, metadata, embedded);
    return Success(UploadResponse(filename, UploadedMessage, extractedData));
  }

  /** `MatchResponse(matches=results)`: the schema check of `filename: str`. A record without a
      file name makes the handler raise, and the server answers its generic 500. */
  function Respond(results: seq<MatchResult>): (r: Result<MatchResponse, HttpError>)
    ensures r.Success? <==> forall k :: 0 <= k < |results| ==> Named(results[k])
    ensures r.Success? ==> r.value.matches == results
    ensures r.Failure? ==> r.error == InvalidResponse
  {
    if forall k :: 0 <= k < |results| ==> Named(results[k]) then Success(MatchResponse(results))
    else Failure(InvalidResponse)
  }

  /** `match_job`: the ranked matches, wrapped in the response. Over an index that uploads
      filled, every match carries its file name, so the response is always accepted. */
  method MatchJob(svc: ScoringService, index: VectorIndex, retriever: Retriever, request: MatchRequest)
    returns (response: Result<MatchResponse, HttpError>)
    requires Bounded(retriever)
    ensures response == Respond(RankedMatches(Scorer(svc, request.jobDescription),
                                              retriever.search(index.entries, request.jobDescription, TopK),
                                              request.minScore))
    ensures AllFiled(index.entries) ==> response.Success?
  {
    var results := MatchJobs(svc, index, retriever, request.jobDescription, request.minScore);
    if AllFiled(index.entries) {
      StoredMatchesNamed(Scorer(svc, request.jobDescription), retriever, index.entries, request.jobDescription, request.minScore);
    }
    response := Respond(results);
  }

  /** A text-less upload surfaces as a 500 whose detail carries the 400 inside it. */
  lemma NoTextSurfacesAs500()
    ensures Internal(NoText) == HttpError(500, "400: " + NoText.detail)
  {
    Decimal400();
  }


  /** The name check is case-sensitive: an upper-case extension is refused. */
  lemma UpperCaseExtensionRefused(stem: string)
    ensures !EndsWith(stem + ".PDF", ".pdf")
  {
    var s := stem + ".PDF";
    assert s[|s| - 3] == 'P';
  }

  /** The stored record carries the extracted skills, so the scorer sees them, and the
      uploaded file name. */
  lemma StoredCarriesProfile(filename: string, e: Extracted)
    ensures Skills(StoredMetadata(filename, e)) == e.data.skills
    ensures TextField(StoredMetadata(filename, e), "filename") == Some(filename)
  {
  }
}
