/** The API service (services/api.ts): how each call is addressed, which
    headers actually reach `fetch`, and how `makeRequest` turns a response or
    a network failure into a returned body, a failure envelope or a thrown
    error. `fetch` itself is an input: either a response (status, text and
    what `json()` makes of the body) or the error it threw. */
module Api {
  import opened Common
  import opened Text
  import opened OrderedMap
  import TestAnswers

  // ---------------------------------------------------------------------
  // Addresses
  // ---------------------------------------------------------------------

  const BaseUrl := "https://api.ddabattalion.com/api"

  const ProgramsPath := "/programs"
  const TestsPath := "/tests"
  const TestsAvailablePath := "/tests/available"
  const TestsByProgramPath := "/tests/program"
  const EnrollmentRequestPath := "/enrollments/request"
  const EnrollmentMyRequestsPath := "/enrollments/my-requests"
  const EnrollmentCheckAccessPath := "/enrollments/check-access"
  const QuestionsByTestPath := "/questions/test"
  const SubmissionStartPath := "/test-submissions/start"
  const SubmissionSubmitPath := "/test-submissions/submit"
  const SubmissionStatusPath := "/test-submissions/status"
  const SubmissionAnswersPath := "/test-submissions/answers"
  const TestResultsPath := "/test-submissions/my-results"
  const EnquiriesPath := "/enquiries"

  /** `${baseUrl}${endpoint}`. */
  function Url(endpoint: string): (u: string)
    ensures |u| == |BaseUrl| + |endpoint|
    ensures u[..|BaseUrl|] == BaseUrl && u[|BaseUrl|..] == endpoint
  {
    BaseUrl + endpoint
  }

  /** `${prefix}/${id}`. */
  function IdPath(prefix: string, id: int): string {
    prefix + "/" + IntToString(id)
  }

  /** Reads the id back out of `${prefix}/${id}`. */
  function ParseIdPath(prefix: string, path: string): Option<int> {
    var head := prefix + "/";
    if |path| >= |head| && path[..|head|] == head then ParseInt(path[|head|..]) else None
  }

  lemma IdPathRoundTrip(prefix: string, id: int)
    ensures ParseIdPath(prefix, IdPath(prefix, id)) == Some(id)
  {
    var path := IdPath(prefix, id);
    assert path[..|prefix| + 1] == prefix + "/";
    assert path[|prefix| + 1..] == IntToString(id);
    IntToStringRoundTrip(id);
  }

  /** Two ids under the same prefix never share a path. */
  lemma IdPathInjective(prefix: string, a: int, b: int)
    requires IdPath(prefix, a) == IdPath(prefix, b)
    ensures a == b
  {
    IdPathRoundTrip(prefix, a);
    IdPathRoundTrip(prefix, b);
  }

  const QuestionsSuffix := "/questions"

  /** `${QUESTIONS_BY_TEST}/${testId}/questions`. */
  function QuestionsPath(testId: int): string {
    IdPath(QuestionsByTestPath, testId) + QuestionsSuffix
  }

  function ParseQuestionsPath(path: string): Option<int> {
    var n := |QuestionsSuffix|;
    if |path| >= n && path[|path| - n..] == QuestionsSuffix then ParseIdPath(QuestionsByTestPath, path[..|path| - n])
    else None
  }

  lemma QuestionsPathRoundTrip(testId: int)
    ensures ParseQuestionsPath(QuestionsPath(testId)) == Some(testId)
  {
    var p := QuestionsPath(testId);
    var n := |QuestionsSuffix|;
    assert p[|p| - n..] == QuestionsSuffix;
    assert p[..|p| - n] == IdPath(QuestionsByTestPath, testId);
    IdPathRoundTrip(QuestionsByTestPath, testId);
  }

  // ---------------------------------------------------------------------
  // Requests
  // ---------------------------------------------------------------------

  /** Header name/value pairs in the order the object literal lists them. */
  type Headers = seq<(string, string)>

  const ContentType := "Content-Type"
  const DefaultHeaders: Headers := [(ContentType, "application/json")]

  function Bearer(token: string): Headers {
    [("Authorization", "Bearer " + token)]
  }

  /** The body of the enquiry form, as `submitEnquiry` sends it; an absent
      optional field is `undefined` and drops out of the JSON. */
  datatype Enquiry = Enquiry(
    fullName: string,
    mobileNumber: string,
    emailAddress: Option<string>,
    message: Option<string>,
    programName: string)

  /** The JSON bodies the service sends. */
  datatype Body =
    | EnrollmentBody(testId: int, requestMessage: string)
    | AnswersBody(answers: seq<TestAnswers.AnswerPayload>)
    | EnquiryBody(enquiry: Enquiry)

  /** The `RequestInit` a service method passes to `makeRequest`; `None`
      is a property the object does not have. */
  datatype RequestOptions = RequestOptions(verb: Option<string>, headers: Option<Headers>, body: Option<Body>)

  /** What `fetch` receives. */
  datatype FetchInit = FetchInit(verb: Option<string>, headers: Headers, body: Option<Body>)

  /** Object spread `{...base, ...over}`: each property of `over` in turn
      replaces the same-named property in place or is added at the end. */
  function Spread(base: Headers, over: Headers): (r: Headers)
    decreases |over|
  {
    if |over| == 0 then base else Spread(Set(base, over[0].0, over[0].1), over[1..])
  }

  /** A spread reads each name from `over` when `over` has it and from
      `base` otherwise. */
  lemma {:induction false} SpreadGet(base: Headers, over: Headers, k: string)
    requires DistinctKeys(over)
    ensures Get(Spread(base, over), k) == if k in Keys(over) then Get(over, k) else Get(base, k)
    decreases |over|
  {
    if |over| > 0 {
      var rest := over[1..];
      assert DistinctKeys(rest);
      assert [over[0]] + rest == over;
      KeysCons(over[0], rest);
      SpreadGet(Set(base, over[0].0, over[0].1), rest, k);
      SetGet(base, over[0].0, over[0].1, k);
      if k in Keys(rest) {
        var i :| 0 <= i < |rest| && rest[i].0 == k;
        assert over[i + 1] == rest[i];
        assert over[0].0 != k;
      }
    }
  }

  /** `fetch(url, { headers: { 'Content-Type': ..., ...options.headers }, ...options })`:
      the merged header object is built first and then overwritten by the
      caller's own `headers` property whenever there is one. */
  function Init(o: RequestOptions): (r: FetchInit)
    ensures r.verb == o.verb && r.body == o.body
    ensures o.headers.None? ==> r.headers == DefaultHeaders
    ensures o.headers.Some? ==> r.headers == o.headers.value
  {
    var merged := Spread(DefaultHeaders, if o.headers.Some? then o.headers.value else []);
    FetchInit(o.verb, if o.headers.Some? then o.headers.value else merged, o.body)
  }

  /** Every service method, with its arguments. */
  datatype Call =
    | GetPrograms
    | GetAllTests
    | GetAvailableTests(token: string)
    | GetTestsByProgram(programId: int)
    | RequestEnrollment(testId: int, requestMessage: string, token: string)
    | GetMyEnrollmentRequests(token: string)
    | CheckTestAccessCall(testId: int, token: string)
    | GetQuestionsByTest(testId: int)
    | StartTest(testId: int, token: string)
    | SubmitTest(submissionId: int, answers: seq<TestAnswers.AnswerPayload>, token: string)
    | GetSubmissionStatus(testId: int, token: string)
    | GetSubmittedAnswers(submissionId: int, token: string)
    | GetMyTestResults(token: string)
    | SubmitEnquiry(enquiry: Enquiry)

  /** The calls that carry a bearer token. */
  predicate Authorized(c: Call) {
    !(c.GetPrograms? || c.GetAllTests? || c.GetTestsByProgram? || c.GetQuestionsByTest? || c.SubmitEnquiry?)
  }

  /** The calls that POST. */
  predicate Posts(c: Call) {
    c.RequestEnrollment? || c.StartTest? || c.SubmitTest? || c.SubmitEnquiry?
  }

  /** The endpoint each service method hands to `makeRequest`. A call with
      an id in its path can be told apart from any other call of the same
      kind by its endpoint alone. */
  function Endpoint(c: Call): (r: string)
    ensures c.GetTestsByProgram? ==> ParseIdPath(TestsByProgramPath, r) == Some(c.programId)
    ensures c.CheckTestAccessCall? ==> ParseIdPath(EnrollmentCheckAccessPath, r) == Some(c.testId)
    ensures c.GetQuestionsByTest? ==> ParseQuestionsPath(r) == Some(c.testId)
    ensures c.StartTest? ==> ParseIdPath(SubmissionStartPath, r) == Some(c.testId)
    ensures c.SubmitTest? ==> ParseIdPath(SubmissionSubmitPath, r) == Some(c.submissionId)
    ensures c.GetSubmissionStatus? ==> ParseIdPath(SubmissionStatusPath, r) == Some(c.testId)
    ensures c.GetSubmittedAnswers? ==> ParseIdPath(SubmissionAnswersPath, r) == Some(c.submissionId)
  {
    match c
    case GetPrograms => ProgramsPath
    case GetAllTests => TestsPath
    case GetAvailableTests(_) => TestsAvailablePath
    case GetTestsByProgram(id) => IdPathRoundTrip(TestsByProgramPath, id); IdPath(TestsByProgramPath, id)
    case RequestEnrollment(_, _, _) => EnrollmentRequestPath
    case GetMyEnrollmentRequests(_) => EnrollmentMyRequestsPath
    case CheckTestAccessCall(id, _) =>
      IdPathRoundTrip(EnrollmentCheckAccessPath, id); IdPath(EnrollmentCheckAccessPath, id)
    case GetQuestionsByTest(id) => QuestionsPathRoundTrip(id); QuestionsPath(id)
    case StartTest(id, _) => IdPathRoundTrip(SubmissionStartPath, id); IdPath(SubmissionStartPath, id)
    case SubmitTest(id, _, _) => IdPathRoundTrip(SubmissionSubmitPath, id); IdPath(SubmissionSubmitPath, id)
    case GetSubmissionStatus(id, _) =>
      IdPathRoundTrip(SubmissionStatusPath, id); IdPath(SubmissionStatusPath, id)
    case GetSubmittedAnswers(id, _) =>
      IdPathRoundTrip(SubmissionAnswersPath, id); IdPath(SubmissionAnswersPath, id)
    case GetMyTestResults(_) => TestResultsPath
    case SubmitEnquiry(_) => EnquiriesPath
  }

  function Options(c: Call): (o: RequestOptions)
    ensures o.verb == Some("POST") <==> Posts(c)
    ensures o.verb.None? <==> !Posts(c)
    ensures o.headers.Some? <==> Authorized(c)
    ensures Authorized(c) ==> o.headers == Some(Bearer(c.token))
    ensures o.body.Some? <==> c.RequestEnrollment? || c.SubmitTest? || c.SubmitEnquiry?
  {
    var post := if Posts(c) then Some("POST") else None;
    var headers := if Authorized(c) then Some(Bearer(c.token)) else None;
    var body :=
      match c
      case RequestEnrollment(id, m, _) => Some(EnrollmentBody(id, m))
      case SubmitTest(_, answers, _) => Some(AnswersBody(answers))
      case SubmitEnquiry(e) => Some(EnquiryBody(e))
      case _ => None;
    RequestOptions(post, headers, body)
  }

  /** The header quirk across the whole service: every call that sends a
      bearer token reaches `fetch` with that single header and without
      `Content-Type` (even those that POST a JSON body), while the calls
      without a token keep the JSON `Content-Type`. */
  lemma AuthorizedCallsDropContentType(c: Call)
    ensures Authorized(c) ==> Init(Options(c)).headers == Bearer(c.token)
    ensures Get(Init(Options(c)).headers, ContentType).Some? <==> !Authorized(c)
    ensures Get(Init(Options(c)).headers, "Authorization").Some? <==> Authorized(c)
  {
  }

  /** Had the caller's headers been merged as the inner spread intends, the
      default `Content-Type` would survive next to them. */
  lemma IntendedMergeKeepsContentType(h: Headers)
    requires DistinctKeys(h) && ContentType !in Keys(h)
    ensures Get(Spread(DefaultHeaders, h), ContentType) == Some("application/json")
    ensures forall k :: k in Keys(h) ==> Get(Spread(DefaultHeaders, h), k) == Get(h, k)
  {
    SpreadGet(DefaultHeaders, h, ContentType);
    forall k | k in Keys(h) ensures Get(Spread(DefaultHeaders, h), k) == Get(h, k) {
      SpreadGet(DefaultHeaders, h, k);
    }
  }

  // ---------------------------------------------------------------------
  // Responses
  // ---------------------------------------------------------------------

  datatype ErrorKind = TypeError | SyntaxError | PlainError

  /** A thrown JavaScript error: its class and its message. */
  datatype Error = Error(kind: ErrorKind, message: string)

  /** What `response.json()` makes of the body. */
  datatype Json<T> = Json(value: T) | Malformed(parseError: string)

  /** What `fetch` did: it resolved with a response, or it threw. */
  datatype FetchResult<T> =
    | Responded(status: int, text: string, json: Json<T>)
    | FetchFailed(error: Error)

  /** `response.ok`. */
  predicate Ok(status: int) {
    200 <= status <= 299
  }

  /** What `makeRequest` resolves to: the parsed body, or one of its
      `{ success: false, message, data: null }` envelopes. */
  datatype Reply<T> = Parsed(body: T) | Envelope(message: string)

  /** An awaited call either returns or throws. */
  datatype Outcome<R> = Returned(value: R) | Threw(error: Error)

  const AccessExpired := "Access expired. Please contact support or log in with a valid account."
  const LoginRequired := "Please log in to continue."
  const ServerUnavailable := "Server temporarily unavailable. Please try again later."
  const NoInternet := "No internet connection. Please check your network and try again."

  const HttpErrorPrefix := "HTTP error! status: "

  /** The message of the error thrown for any other non-ok status. */
  function HttpErrorMessage(status: int, text: string): string {
    HttpErrorPrefix + IntToString(status) + ", message: " + text
  }

  /** Reads the status back out of such a message. */
  function HttpErrorStatus(message: string): Option<int> {
    var n := |HttpErrorPrefix|;
    if |message| >= n && message[..n] == HttpErrorPrefix then ParseInt(Split(message[n..], ',')[0]) else None
  }

  lemma NoCommaInNumber(n: int)
    ensures ',' !in IntToString(n)
  {
    if n < 0 {
      assert IntToString(n) == "-" + NatToString(-n);
      assert forall i :: 1 <= i < |IntToString(n)| ==> IntToString(n)[i] == NatToString(-n)[i - 1];
    }
  }

  /** A message built as prefix, number and tail splits back at the end of
      the prefix. */
  lemma PrefixParts(p: string, d: string, t: string)
    ensures (p + d + t)[..|p|] == p && (p + d + t)[|p|..] == d + t
  {
  }

  /** The status is what follows the prefix, up to the first comma. */
  lemma HttpErrorParts(status: int, text: string)
    ensures var m := HttpErrorMessage(status, text);
            && |m| >= |HttpErrorPrefix| && m[..|HttpErrorPrefix|] == HttpErrorPrefix
            && m[|HttpErrorPrefix|..] == IntToString(status) + [','] + (" message: " + text)
  {
    var digits := IntToString(status);
    var tail := ", message: " + text;
    assert HttpErrorMessage(status, text) == HttpErrorPrefix + digits + tail;
    PrefixParts(HttpErrorPrefix, digits, tail);
    assert tail == [','] + (" message: " + text);
  }

  /** The thrown message reads back as its status, whatever the response text. */
  lemma HttpErrorRoundTrip(status: int, text: string)
    ensures HttpErrorStatus(HttpErrorMessage(status, text)) == Some(status)
  {
    var m := HttpErrorMessage(status, text);
    var n := |HttpErrorPrefix|;
    var digits := IntToString(status);
    HttpErrorParts(status, text);
    NoCommaInNumber(status);
    SplitAt(digits, ',', " message: " + text);
    assert Split(m[n..], ',')[0] == digits;
    IntToStringRoundTrip(status);
  }

  /** The thrown message contains the status code, whatever the response text. */
  lemma HttpErrorNamesStatus(status: int, text: string)
    ensures Contains(HttpErrorMessage(status, text), IntToString(status))
  {
    var digits := IntToString(status);
    var tail := ", message: " + text;
    assert HttpErrorMessage(status, text) == HttpErrorPrefix + digits + tail;
    ContainsInfix(HttpErrorPrefix, digits, tail);
  }

  /** The statuses `makeRequest` answers with an envelope instead of throwing. */
  predicate EnvelopeStatus(status: int) {
    status == 403 || status == 401 || status >= 500
  }

  /** `makeRequest`: the `try` block, then the `catch` that turns a network
      `TypeError` mentioning `fetch` into an envelope and rethrows anything
      else. The error thrown for an unexpected status is a plain `Error`,
      so the `catch` always rethrows it. */
  function MakeRequest<T>(f: FetchResult<T>): (r: Outcome<Reply<T>>)
    ensures f.Responded? && Ok(f.status) ==>
              (r.Returned? <==> f.json.Json?) && (r.Returned? ==> r.value == Parsed(f.json.value))
    ensures f.Responded? && Ok(f.status) && f.json.Malformed? ==> r == Threw(Error(SyntaxError, f.json.parseError))
    ensures f.Responded? && !Ok(f.status) ==> (r.Returned? <==> EnvelopeStatus(f.status))
    ensures r.Returned? && r.value.Envelope? <==>
              (f.Responded? && !Ok(f.status) && EnvelopeStatus(f.status))
              || (f.FetchFailed? && f.error.kind == TypeError && Contains(f.error.message, "fetch"))
    ensures f.Responded? && !Ok(f.status) && !EnvelopeStatus(f.status) ==>
              r.Threw? && r.error.kind == PlainError && HttpErrorStatus(r.error.message) == Some(f.status)
    ensures f.FetchFailed? && r.Threw? ==> r.error == f.error
    ensures f.FetchFailed? && !(f.error.kind == TypeError && Contains(f.error.message, "fetch")) ==> r == Threw(f.error)
    ensures f.FetchFailed? && f.error.kind == TypeError && Contains(f.error.message, "fetch") ==> r == Returned(Envelope(NoInternet))
  {
    var attempt: Outcome<Reply<T>> :=
      match f
      case FetchFailed(e) => Threw(e)
      case Responded(status, text, json) =>
        if !Ok(status) then
          if status == 403 then Returned(Envelope(AccessExpired))
          else if status == 401 then Returned(Envelope(LoginRequired))
          else if status >= 500 then Returned(Envelope(ServerUnavailable))
          else
            HttpErrorRoundTrip(status, text);
            Threw(Error(PlainError, HttpErrorMessage(status, text)))
        else
          match json
          case Json(v) => Returned(Parsed(v))
          case Malformed(m) => Threw(Error(SyntaxError, m));
    if attempt.Threw? && attempt.error.kind == TypeError && Contains(attempt.error.message, "fetch") then
      Returned(Envelope(NoInternet))
    else attempt
  }

  /** Which envelope each status gets. */
  lemma EnvelopeMessages<T>(status: int, text: string, json: Json<T>)
    requires !Ok(status)
    ensures status == 403 ==> MakeRequest(Responded(status, text, json)) == Returned(Envelope(AccessExpired))
    ensures status == 401 ==> MakeRequest(Responded(status, text, json)) == Returned(Envelope(LoginRequired))
    ensures status >= 500 ==> MakeRequest(Responded(status, text, json)) == Returned(Envelope(ServerUnavailable))
  {
  }

  /** A network failure whose message does not mention `fetch` (React
      Native's `Network request failed` among them) is rethrown, not turned
      into the no-connection envelope. */
  lemma NetworkFailureWordingMatters<T>()
    ensures MakeRequest<T>(FetchFailed(Error(TypeError, "Failed to fetch"))) == Returned(Envelope(NoInternet))
    ensures MakeRequest<T>(FetchFailed(Error(TypeError, "Network request failed")))
            == Threw(Error(TypeError, "Network request failed"))
  {
    ContainsInfix("Failed to ", "fetch", "");
    assert "Failed to " + "fetch" + "" == "Failed to fetch";
    var m := "Network request failed";
    forall i | 0 <= i <= |m| - 5 ensures !OccursAt(m, "fetch", i) {
      assert m[i..i + 5][0] == m[i] && m[i..i + 5][1] == m[i + 1];
    }
  }

  // ---------------------------------------------------------------------
  // checkTestAccess
  // ---------------------------------------------------------------------

  const NoTestAccess := "You do not have access to this test. Please request enrollment first."

  /** What `checkTestAccess` resolves to: whatever `makeRequest` returned, or
      its own `{ success: false, message, has_access: false, data: { has_access: false } }`. */
  datatype AccessReply<T> = Passed(reply: Reply<T>) | NoAccess

  /** `checkTestAccess`: a thrown error whose message mentions `403`
      becomes the no-access reply; every other error is rethrown. */
  function CheckTestAccess<T>(f: FetchResult<T>): (r: Outcome<AccessReply<T>>)
    ensures MakeRequest(f).Returned? ==> r == Returned(Passed(MakeRequest(f).value))
    ensures r == Returned(NoAccess) <==> MakeRequest(f).Threw? && Contains(MakeRequest(f).error.message, "403")
    ensures r.Threw? ==> r == Threw(MakeRequest(f).error) && !Contains(r.error.message, "403")
  {
    match MakeRequest(f)
    case Returned(x) => Returned(Passed(x))
    case Threw(e) => if Contains(e.message, "403") then Returned(NoAccess) else Threw(e)
  }

  /** An HTTP 403 never reaches the 403 fallback: `makeRequest` has already
      answered it with the access-expired envelope. */
  lemma Http403IsNotNoAccess<T>(text: string, json: Json<T>)
    ensures CheckTestAccess(Responded(403, text, json)) == Returned(Passed(Envelope(AccessExpired)))
  {
  }

  /** The fallback is reached instead by an unexpected status whose response
      text mentions `403`, for instance a 404 with such a body. */
  lemma NoAccessFromResponseText<T>(status: int, json: Json<T>)
    requires !Ok(status) && !EnvelopeStatus(status)
    ensures CheckTestAccess(Responded(status, "error 403", json)) == Returned(NoAccess)
  {
    var text := "error 403";
    var m := HttpErrorMessage(status, text);
    assert MakeRequest(Responded(status, text, json)) == Threw(Error(PlainError, m));
    assert "error " + "403" + "" == text;
    ContainsInfix("error ", "403", "");
    ContainsAfterPrefix(HttpErrorPrefix + IntToString(status) + ", message: ", text, "403");
  }
}
