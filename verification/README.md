# Exam client core, modelled in Dafny

This project models the decision logic of a React Native exam client:

- the timed test-taking session;
- the programme test list with its enrollment statuses;
- the API service's classification of HTTP results;
- the enrollment, enquiry and certification forms;
- the authentication context;
- the three-page intro.

Each screen handler is an atomic transition on an immutable state record. What a handler does outside its own state is returned as a list of events: an alert, an API call, a navigation or a callback. Each awaited API call is an input parameter holding what the call settled to. An async handler whose state is visible while it waits is split into a begin step and a complete step:

- the enrollment dialog's submit;
- the enquiry submit.

## Modules

| file | module | models |
|---|---|---|
| common.dfy | `Common` | `Option`; JavaScript truthiness of optional strings and numbers; `a \|\| fallback` |
| text.dfy | `Text` | decimal printing and parsing, `padStart`, `includes`, `split`, `trim` over the ECMAScript whitespace set, and `length` in UTF-16 code units |
| ordered_map.dfy | `OrderedMap` | a JavaScript `Map`: an insertion-ordered list in which `set` replaces an existing key in place |
| test_answers.dfy | `TestAnswers` | the answer sheet, the submit payload, the answered count and the local score |
| test_screen.dfy | `TestScreen` | the test session: load, start, select, next and previous, timer tick, submit, `formatTime` |
| api.dfy | `Api` | endpoint paths, the header merge, `makeRequest`, `checkTestAccess` |
| program_tests.dfy | `ProgramTests` | active-test filter, status resolution, tap dispatch, button mapping, enrollment request, `formatDuration` |
| enrollment_modal.dfy | `EnrollmentModal` | the enrollment request dialog |
| education.dfy | `Education` | the enquiry form |
| profile.dfy | `Profile` | released-result detection, released test names, the certification form, the current student lookup |
| auth.dfy | `Auth` | the authentication context |
| intro.dfy | `Intro` | the intro pager |

## Behaviour the model keeps as written

The model follows the code in the places below, where the code may do something other than what a reader expects. Each is stated by a lemma.

- `TestScreen.NoSubmitGuard`: nothing stops a second submit after a successful one.
- The timer keeps counting after a submit. When it runs out it only raises the confirmation prompt.
- `Api.AuthorizedCallsDropContentType`: every call that sends a bearer token also sends no `Content-Type`. The options' `headers` object is spread after the merged one and replaces it.
- `Api.Http403IsNotNoAccess`: an HTTP 403 never reaches the 403 fallback of `checkTestAccess`. `makeRequest` already answered that status with an envelope. The fallback is only reached when an unexpected status's error text mentions `403` (`Api.NoAccessFromResponseText`).
- `Api.NetworkFailureWordingMatters`: a network failure is answered with the no-internet envelope only when the `TypeError` message mentions `fetch`. React Native's "Network request failed" does not, so it is rethrown.
- `Profile.OtherStudentsCount`: released completed tests are collected from every student in the list, not only the signed-in one.
- `Education.CloseModal` has no in-flight guard. Only the cancel button is disabled while an enquiry is in flight.
- `ProgramTests.RequestAlwaysClosesDialog`: the screen's enrollment handler catches every error. So the dialog always clears and closes, even when the request failed.

## Model

| member | source | states |
|---|---|---|
| Common.MessageOr | app/program-tests.tsx:261 | `message \|\| fallback`: a missing or empty server message is replaced by the fallback text |
| Text.Utf16Length | components/EnrollmentModal.tsx:58 | a string's JavaScript `length` counts UTF-16 code units: at least its number of characters and at most twice that |
| Text.Utf16LengthAppend | components/EnrollmentModal.tsx:58 | the code-unit length of two strings in a row is the sum of their lengths |
| Text.Utf16LengthBmp | components/EnrollmentModal.tsx:58 | a string of Basic Multilingual Plane characters has as many code units as characters |
| Text.Utf16LengthAstral | components/EnrollmentModal.tsx:58 | a string holding a character outside the Basic Multilingual Plane has more code units than characters |
| Text.Utf16LengthAllAstral | components/EnrollmentModal.tsx:58 | a string wholly outside the Basic Multilingual Plane has twice as many code units as characters |
| Text.AstralNotWhitespace | components/EnrollmentModal.tsx:58 | no character outside the Basic Multilingual Plane is whitespace to `trim()` |
| Text.Trim | components/EnrollmentModal.tsx:58 | `trim()` removes exactly a leading and a trailing run of whitespace; the result neither starts nor ends with whitespace |
| Text.TrimUnchanged | components/EnrollmentModal.tsx:58 | a string that neither starts nor ends with whitespace is left as it is by `trim()` |
| Text.TrimIdempotent | components/EducationScreen.tsx:83-89 | trimming a trimmed string changes nothing, which is why the sent enquiry fields are already clean |
| Text.BlankIffAllWhitespace | components/EducationScreen.tsx:69-72 | a field is blank after trimming exactly when every character is whitespace |
| Text.Pad2 | app/test-screen.tsx:162-164 | `padStart(2, '0')` keeps a string of two or more characters and otherwise pads it to exactly two, keeping it as the suffix |
| Text.IntToStringRoundTrip | app/program-tests.tsx:287-289 | a printed integer parses back to itself, the basis of every label round trip |
| OrderedMap.SetGet | app/test-screen.tsx:228-230 | after `Map.set(k, v)`, reading `k` gives `v` and every other key reads as before |
| OrderedMap.Get | app/test-screen.tsx:354 | `get` finds a value exactly when the key is present, and the value is that of the first entry with the key |
| OrderedMap.Set | app/test-screen.tsx:228-230 | `set` on a present key replaces its entry in place and keeps every position; a new key is appended at the end |
| OrderedMap.SetKeys | app/test-screen.tsx:228-230 | `set` adds its key and no other |
| TestAnswers.InitialAnswers | app/test-screen.tsx:133-143 | the answer sheet after a load has one blank, unanswered entry per question id, in question order |
| TestAnswers.ChooseConsistent | app/test-screen.tsx:222-230 | recording a choice keeps every entry's `isAnswered` agreeing with its selected option |
| TestAnswers.GetAnsweredCount | app/test-screen.tsx:380-386 | the loop counts the answered entries, which on a consistent sheet is the size of the submit payload |
| TestAnswers.Payload | app/test-screen.tsx:311-316 | on a consistent sheet the payload has one item per answered entry, and never more items than entries |
| TestAnswers.PayloadMembership | app/test-screen.tsx:313-327 | a question and option are in the payload exactly when the sheet records that option for that question |
| TestAnswers.CorrectQuestions | app/test-screen.tsx:350-357 | the questions whose stored option equals the correct one, and no others |
| TestAnswers.ComputeScore | app/test-screen.tsx:344-364 | the correct count is at most the number of questions, and the marks are between 0 and the sum of all marks when no mark is negative |
| TestAnswers.ScoreIsCorrectQuestions | app/test-screen.tsx:344-364 | the score is the number of correctly answered questions and the sum of their marks |
| TestAnswers.ScoreAdditive | app/test-screen.tsx:350-357 | the score of two question lists together is the sum of their scores |
| TestAnswers.TallyScore | app/test-screen.tsx:344-364 | the `forEach` loop computes the same score as the reference definition |
| TestAnswers.ScoreExample | app/test-screen.tsx:344-364 | marks 1, 2, 3 with the first and third answered correctly score 2 correct answers and 4 marks |
| TestScreen.Open | app/test-screen.tsx:57 | a new session is loading, not started, shows the disclaimer, and has duration × 60 seconds left, with no error, score, questions or submission id |
| TestScreen.OpenWellformed | app/test-screen.tsx:57 | a new session satisfies the session invariant |
| TestScreen.Load | app/test-screen.tsx:118-154 | a successful load stores the questions and a fresh answer sheet, and resets an out-of-range index to 0; a failure keeps the questions; loading ends and no other field changes; the invariant is preserved |
| TestScreen.StartTest | app/test-screen.tsx:167-211 | without a token or student id the start is refused with no call; otherwise the start call is made, and only a successful reply stores the submission id, hides the disclaimer and sets started; nothing else changes |
| TestScreen.Select | app/test-screen.tsx:213-231 | with a current question only its entry changes, to the chosen option and answered; without one nothing changes |
| TestScreen.Next | app/test-screen.tsx:233-237 | moves on by one before the last question and is a no-op on it; the index stays in range |
| TestScreen.Previous | app/test-screen.tsx:239-243 | moves back by one after the first question and is a no-op on it; the index stays in range |
| TestScreen.Tick | app/test-screen.tsx:101-116 | while started with time left, one second passes and running out raises only the confirmation prompt; otherwise nothing changes; no call is made |
| TestScreen.TicksCountDown | app/test-screen.tsx:101-116 | n ticks leave max(remaining − n, 0) seconds and raise the prompt exactly when time ran out |
| TestScreen.RequestSubmit | app/test-screen.tsx:245-256 | the submit button only raises the confirmation prompt |
| TestScreen.CancelSubmit | app/test-screen.tsx:276-279 | cancelling lowers the prompt and changes nothing else |
| TestScreen.SubmitTest | app/test-screen.tsx:281-378 | no call without a token, student id, submission id or a non-empty payload; otherwise exactly one submit call with the payload; only an accepted reply stores the locally computed score and marks the test submitted |
| TestScreen.ConfirmSubmit | app/test-screen.tsx:258-274 | confirming lowers the prompt and then behaves exactly as `submitTest`: the same events and the same resulting session |
| TestScreen.SubmitCarriesAnsweredCount | app/test-screen.tsx:313-327 | the submitted answers are as many as the answered count shown on screen |
| TestScreen.NoSubmitGuard | app/test-screen.tsx:258-274 | after a successful submit, confirming again sends the same submit call again |
| TestScreen.JsRem | app/test-screen.tsx:158-159 | JavaScript `%` is `a - b * trunc(a / b)`: in `[0, b)` and equal to the mathematical remainder for a non-negative dividend, in `(-b, 0]` for a negative one |
| TestScreen.PaddedDigits | app/test-screen.tsx:162-164 | a two-digit padded field is two digits long and reads back as its value |
| TestScreen.ClockFields | app/test-screen.tsx:156-165 | hours, minutes and seconds computed as `formatTime` does recompose the seconds, with minutes and seconds under 60 |
| TestScreen.ParseClockHours | app/test-screen.tsx:162 | an `H:MM:SS` text splits into three fields and reads back as its seconds |
| TestScreen.ParseClockMinutes | app/test-screen.tsx:164 | an `M:SS` text splits into two fields and reads back as its seconds |
| TestScreen.FormatTimeFields | app/test-screen.tsx:156-165 | from an hour up the text is hours, padded minutes and padded seconds; below it, minutes and padded seconds |
| TestScreen.FormatTime | app/test-screen.tsx:156-165 | every non-negative time reads back as itself, with three fields from an hour up and two below |
| TestScreen.HoursClock | app/test-screen.tsx:157-162 | from an hour up, the hours, padded minutes and padded seconds read back as the time |
| TestScreen.MinutesClock | app/test-screen.tsx:157-164 | below an hour, the minutes and padded seconds read back as the time |
| TestScreen.FormatTimeExamples | app/test-screen.tsx:156-165 | 125 prints as `2:05` and 3725 as `1:02:05` |
| TestScreen.ScenarioSheet | app/test-screen.tsx:128-231 | load, start and one answer give the expected sheet, index and started flag |
| TestScreen.ScenarioScore | app/test-screen.tsx:313-364 | a two-question sheet with one correct answer gives a one-item payload and a score of 1 answer and 2 marks |
| TestScreen.TimedRunScenario | app/test-screen.tsx:101-116 | a started session ticked to zero raises the prompt without calling the API, and then confirming would submit |
| Api.Url | services/api.ts:64 | the request URL is the base URL followed by the endpoint |
| Api.IdPathRoundTrip | services/api.ts:161-163 | an id appended to an endpoint prefix reads back as itself |
| Api.IdPathInjective | services/api.ts:187-193 | two ids under one prefix never share a path |
| Api.QuestionsPathRoundTrip | services/api.ts:211-213 | the questions path carries the test id, which reads back as itself |
| Api.SpreadGet | services/api.ts:75-81 | an object spread reads a name from the later object when it has it, and from the earlier one otherwise |
| Api.Init | services/api.ts:75-81 | fetch gets the caller's method and body; its headers are the defaults only when the caller gave none, and are exactly the caller's otherwise |
| Api.Options | services/api.ts:143-287 | exactly the enrollment, start, submit and enquiry calls POST; exactly the token-carrying calls pass headers, and those headers are the bearer header; exactly the calls with a JSON body send one |
| Api.AuthorizedCallsDropContentType | services/api.ts:75-81 | every token-carrying call sends only its bearer header and no `Content-Type`; every other call sends `Content-Type` and no `Authorization` |
| Api.IntendedMergeKeepsContentType | services/api.ts:76-79 | the inner spread alone would keep `Content-Type` and add the caller's headers |
| Api.Endpoint | services/api.ts:161-264 | every call with an id in its path has an endpoint that reads back to that id |
| Api.HttpErrorRoundTrip | services/api.ts:120 | the error thrown for another non-ok status reads back as that status, whatever the response text |
| Api.HttpErrorNamesStatus | services/api.ts:120 | that error's message contains the status code, whatever the response text |
| Api.MakeRequest | services/api.ts:60-141 | an ok response returns its parsed body, or throws when the body is not JSON; a non-ok status returns an envelope exactly for 401, 403 and 500 and above, and otherwise throws; a fetch failure is rethrown unless it is a `TypeError` mentioning `fetch`, which returns the no-internet envelope |
| Api.EnvelopeMessages | services/api.ts:92-117 | 403 gets the access-expired envelope, 401 the log-in envelope, 500 and above the server-unavailable envelope |
| Api.NetworkFailureWordingMatters | services/api.ts:130-139 | "Failed to fetch" becomes the no-internet envelope; "Network request failed" is rethrown |
| Api.CheckTestAccess | services/api.ts:187-208 | whatever `makeRequest` returns is passed through; a thrown error mentioning `403` becomes the no-access reply; any other is rethrown unchanged |
| Api.Http403IsNotNoAccess | services/api.ts:92-99 | an HTTP 403 gives the access-expired envelope, never the no-access reply |
| Api.NoAccessFromResponseText | services/api.ts:194-204 | another non-ok status whose text mentions `403` does give the no-access reply |
| ProgramTests.ActiveTests | app/program-tests.tsx:76-79 | the kept tests are exactly the listed tests with a truthy status |
| ProgramTests.ActiveTestsAppend | app/program-tests.tsx:78 | the filter keeps the original order: it distributes over concatenation |
| ProgramTests.ActiveTestsKeepsActive | app/program-tests.tsx:78 | a list of active tests is kept as it is |
| ProgramTests.LoadTests | app/program-tests.tsx:68-89 | a successful reply with data lists its active tests and clears the error; any other outcome sets an error and keeps the old list; loading ends; the statuses, selection and dialog are untouched |
| ProgramTests.FirstRequest | app/program-tests.tsx:108-110 | `find` returns the first request for the test, or nothing when none is for it |
| ProgramTests.Resolve | app/program-tests.tsx:97-133 | a thrown access check gives `none`; granted access gives `approved`; otherwise a thrown requests call gives `none`, an unsuccessful requests reply records nothing, and a successful one gives the first matching request's status, or `none` when there is no data or no match |
| ProgramTests.FailuresReadAsNone | app/program-tests.tsx:118-131 | a thrown access check, a thrown requests call or an envelope reply leaves the test reading `none` |
| ProgramTests.FirstRequestDecides | app/program-tests.tsx:104-116 | without access, a test reads as the status of its first request in the list |
| ProgramTests.UnrequestedReadsNone | app/program-tests.tsx:106-121 | without access, a test with no request for it, or a successful reply without a list, reads `none` |
| ProgramTests.CollectGet | app/program-tests.tsx:95-135 | with distinct ids, each test ends up with what its own probes resolved to, and unlisted ids are untouched |
| ProgramTests.StatusOf | app/program-tests.tsx:153 | a missing or empty status reads as `none`; any other reads as itself |
| ProgramTests.CheckAllStatuses | app/program-tests.tsx:91-137 | without a token nothing changes; otherwise only the statuses change, every listed test reads as its own resolution, and every other id reads `none` |
| ProgramTests.CollectReads | app/program-tests.tsx:95-135 | the rebuilt map read through `get(id) \|\| 'none'` gives each test its resolution, and `none` for unlisted ids |
| ProgramTests.KindOf | app/program-tests.tsx:156-182 | the switch recognises exactly `approved`, `pending` and `rejected`, and sends anything else to the default branch |
| ProgramTests.TestPress | app/program-tests.tsx:139-183 | signed out it only alerts; approved navigates with the test's details; pending or rejected only alerts; any other status opens the dialog holding the test |
| ProgramTests.ButtonLabel | app/program-tests.tsx:296-324 | approved shows "Start Test", pending "Request Sent", rejected "Request Rejected", anything else "Request Access" |
| ProgramTests.ButtonDisabled | app/program-tests.tsx:333 | the button is disabled exactly for pending and rejected |
| ProgramTests.EnabledIffPressActs | app/program-tests.tsx:139-183 | for a signed-in student the button is enabled exactly when its press does more than alert |
| ProgramTests.EnrollmentSubmit | app/program-tests.tsx:220-274 | without a selected test or token it alerts and makes no call; otherwise it sends the request; only a successful reply marks that test pending and leaves every other entry alone |
| ProgramTests.MarkPending | app/program-tests.tsx:248-250 | marking a test pending reads back as pending and keeps every other entry |
| ProgramTests.EnrollmentAlert | app/program-tests.tsx:252-272 | the success title is shown exactly for a successful reply; a thrown error's message is quoted in the network alert |
| ProgramTests.CloseModal | app/program-tests.tsx:276-281 | closing hides the dialog and forgets the selected test, keeping list, statuses, loading flag and error |
| ProgramTests.RequestAlwaysClosesDialog | app/program-tests.tsx:220-281 | a detailed message is sent trimmed, the dialog always closes afterwards, and the test reads pending exactly when the request succeeded or it already was pending |
| ProgramTests.FormatDuration | app/program-tests.tsx:283-290 | every duration label, negative ones included, reads back as its number of minutes |
| ProgramTests.FormatDurationExamples | app/program-tests.tsx:283-290 | 45 prints as `45m`, 90 as `1h 30m`, 120 as `2h` |
| ProgramTests.FormatDurationFields | app/program-tests.tsx:283-290 | under an hour the label is the minutes followed by `m`; on the hour it is the hours followed by `h`; otherwise it is two space-separated fields, the hours with `h` and the remaining minutes with `m` |
| EnrollmentModal.Edit | components/EnrollmentModal.tsx:155 | the message can be edited only while not loading |
| EnrollmentModal.Begin | components/EnrollmentModal.tsx:53-72 | a message shorter than 10 UTF-16 code units once trimmed only alerts; otherwise the dialog starts loading and `onSubmit` receives the trimmed message |
| EnrollmentModal.SentMessage | components/EnrollmentModal.tsx:58-72 | the sent message is the typed one with surrounding whitespace removed, at least 10 UTF-16 code units long and so at least 5 characters |
| EnrollmentModal.EmojiCountTwice | components/EnrollmentModal.tsx:58 | any five characters outside the Basic Multilingual Plane, five emoji say, are ten code units, so they pass the length test and are sent as typed |
| EnrollmentModal.Complete | components/EnrollmentModal.tsx:73-86 | on success the message is cleared and `onClose` is called; on failure the message is kept and the dialog stays open; loading ends either way |
| EnrollmentModal.Close | components/EnrollmentModal.tsx:89-94 | closing is ignored while loading; otherwise the message is cleared and `onClose` is called |
| EnrollmentModal.DisabledIffRefused | components/EnrollmentModal.tsx:175 | when not loading, the send button is enabled exactly when pressing it would reach `onSubmit` |
| EnrollmentModal.DetailedIsSent | components/EnrollmentModal.tsx:58-72 | a message of at least 10 code units once trimmed reaches `onSubmit` |
| EnrollmentModal.ShortIsRefused | components/EnrollmentModal.tsx:58-66 | a message shorter than 10 code units once trimmed never reaches `onSubmit` |
| EnrollmentModal.HandlerHasNoLoadingGuard | components/EnrollmentModal.tsx:53-72 | while loading the button is disabled, but the handler itself would send again |
| EnrollmentModal.SubmitRound | components/EnrollmentModal.tsx:53-94 | while a request is pending, closing and typing do nothing; success returns the dialog to closed, failure to where it was |
| Education.OptionalField | components/EducationScreen.tsx:86-87 | an optional field is omitted exactly when it is blank, and is trimmed and non-empty otherwise |
| Education.EnquiryOf | components/EducationScreen.tsx:83-89 | the enquiry body has trimmed name and mobile, optional email and message, and the selected programme |
| Education.BannerPress | components/EducationScreen.tsx:62-65 | a banner press selects its service and opens the dialog |
| Education.CloseModal | components/EducationScreen.tsx:113-116 | closing hides the dialog and empties the form, whether or not an enquiry is in flight |
| Education.BeginEnquiry | components/EducationScreen.tsx:67-89 | a blank name or mobile only alerts; then a submit in flight does nothing; otherwise exactly one enquiry call is made and the submit is in flight |
| Education.CompleteEnquiry | components/EducationScreen.tsx:91-110 | success closes the dialog and empties the form; failure keeps it; the in-flight flag is cleared either way |
| Education.SentEnquiryIsClean | components/EducationScreen.tsx:69-89 | every sent enquiry has non-blank trimmed required fields and absent or non-empty trimmed optional ones |
| Education.InFlightGuard | components/EducationScreen.tsx:74-79 | a second submit while one is in flight sends nothing; after a failure the same form is sent again |
| Education.ResetFormIsRefused | components/EducationScreen.tsx:69-72 | after a success the emptied form is refused by validation |
| Profile.ReleasedResultTitles | components/ProfileScreen.tsx:207-212 | the released result titles are exactly those of results with status `released` |
| Profile.ReleasedResultTitlesAppend | components/ProfileScreen.tsx:207-212 | the titles of two result lists in a row are those of the first followed by those of the second, so the titles keep the results' order |
| Profile.ReleasedResultTitlesOne | components/ProfileScreen.tsx:207-212 | one result contributes its title exactly when its status is `released` |
| Profile.ReleasedCompletedTitles | components/ProfileScreen.tsx:216-220 | one student's released titles are exactly those of completed tests with status `result_released` |
| Profile.ReleasedCompletedTitlesAppend | components/ProfileScreen.tsx:216-220 | the released titles of two completed-test lists in a row are those of the first followed by those of the second |
| Profile.ReleasedCompletedTitlesOne | components/ProfileScreen.tsx:216-220 | one completed test contributes its title exactly when its status is `result_released` |
| Profile.AllCompletedTitlesAppend | components/ProfileScreen.tsx:214-221 | the titles of two student lists in a row are those of the first list's students followed by the second's, in student order |
| Profile.AllCompletedTitlesMembers | components/ProfileScreen.tsx:214-221 | a title is collected exactly when some student has it released |
| Profile.Dedupe | components/ProfileScreen.tsx:223 | duplicates are removed and the same names remain |
| Profile.DedupeKeepsFirstOccurrenceOrder | components/ProfileScreen.tsx:223 | the names stay in the order of their first occurrences |
| Profile.DedupeDistinct | components/ProfileScreen.tsx:223 | a list without duplicates is kept as it is |
| Profile.HasReleasedIffNames | components/ProfileScreen.tsx:191-224 | there are released results exactly when the released name list is non-empty |
| Profile.ReleasedTestNames | components/ProfileScreen.tsx:204-224 | the names are distinct, and a name is listed exactly when a released result or some student's released completed test has it |
| Profile.OtherStudentsCount | components/ProfileScreen.tsx:196-221 | another student's released test counts even when the signed-in student has none |
| Profile.Remove | components/ProfileScreen.tsx:258 | filtering a name out removes every copy and keeps every copy of every other name |
| Profile.RemoveAppend | components/ProfileScreen.tsx:258 | filtering two lists in a row is filtering each, so the kept names stay in their order |
| Profile.RemoveOne | components/ProfileScreen.tsx:258 | a single entry is dropped exactly when it is the name |
| Profile.Toggle | components/ProfileScreen.tsx:255-262 | toggling flips the name's membership and leaves other names alone; an unselected name is appended at the end and a selected one is filtered out |
| Profile.ToggleTestSelection | components/ProfileScreen.tsx:255-262 | toggling changes only the selection, not name, email or mobile |
| Profile.ToggleTwiceRestores | components/ProfileScreen.tsx:255-262 | toggling an unselected name twice restores the list |
| Profile.RemoveAppended | components/ProfileScreen.tsx:258-260 | removing a just-appended name gives back the list |
| Profile.ToggleRemovesEveryCopy | components/ProfileScreen.tsx:255-262 | a duplicated name is removed entirely by one toggle, so a second toggle does not restore the list |
| Profile.CertificationSubmit | components/ProfileScreen.tsx:226-253 | a blank name, email or mobile, or an empty selection, only alerts; an accepted submit alerts and resets the form |
| Profile.CurrentStudentTests | components/ProfileScreen.tsx:447-449 | the current student's tests are the first entry with the signed-in id, and none without an id or a match |
| Auth.Login | contexts/AuthContext.tsx:97-100 | login sets the token and student id, is authenticated exactly for a non-empty token, and writes no storage |
| Auth.Logout | contexts/AuthContext.tsx:102-105 | logout clears both fields, is not authenticated, and writes no storage |
| Auth.Restore | contexts/AuthContext.tsx:61-93 | the session is restored from storage only when both the token and user data are present and readable, with the id taken from the user data; otherwise both fields are cleared |
| Auth.RestoredIsAuthenticated | contexts/AuthContext.tsx:73-95 | after start-up the user is authenticated exactly when a non-empty token and user data were read |
| Intro.CompleteIntro | app/intro/simple.tsx:77-85 | completion asks to mark the intro seen and replaces the route with the login screen, whether or not marking failed |
| Intro.Next | app/intro/simple.tsx:63-71 | before the last page next moves one page on; on the last page it completes instead |
| Intro.Skip | app/intro/simple.tsx:73-75 | skip completes from any page |
| Intro.Rendered | app/intro/simple.tsx:277-288 | pages 1 and 2 show their own screen, and any other value shows the first |
| Intro.PagesStayInRange | app/intro/simple.tsx:63-71 | from a page in range, next presses never leave pages 0 to 2 and stop on the last |
| Intro.ThirdPressCompletes | app/intro/simple.tsx:63-71 | from the first page, the third next press is the first to complete, and the three screens are shown in turn |

## Left out

- Rendering, styles, animations and gradients, and every screen outside the core listed above: leaderboard, NDA, welcome, splash, the layout and the intro's animated screens. They hold no statable logic.
- Real networking, `JSON.parse`, `Alert`, the router and logging. Each API result is an input; alerts, calls and navigation are returned as events. A body that is not JSON is a `Malformed` input that makes `makeRequest` throw.
- JSON string escaping and `encodeURIComponent`. Request bodies are kept as structured values, and the test screen's route query is a `NavigateToTest` event.
- `setInterval`, React state batching and stale closures. One tick is one discrete transition on the current state.
- `parseInt` on route parameters and its `NaN`. Ids, durations and marks arrive as integers.
- Floating-point durations, marks and server percentages. Durations and marks are integers.
- The test screen's `isLoadingResult`. It is set and cleared within one submit and never read, so it is not in the state.
- Null elements in the question list. The model's question list has none.
- `formatDate` and `createTestToken`. They depend on the wall clock and `btoa`.
- `fetchPrograms` and `handleProgramPress` of the education screen, and `fetchUserProfile`, `fetchTestResults` and `fetchCompletedTests` of the profile screen. They only store what the API returned, which is a parameter here.
- The program test list's `handleStartTest` fallback modal and `handleConfirmStartTest`. The model takes `router.push` never to throw, so that path is not reached.
- The 500-character `maxLength` of the enrollment message input. It is an input widget limit, not handler logic.
- The certification modal's visibility after the alert's OK press. It depends on the alert callback, not on the handler's own result.
- `markIntroAsSeen` internals in utils/introUtils.ts. It catches its own storage errors, so `completeIntro`'s catch branch is modelled as an input (`markFails`) that makes no observable difference.
- The page loads that start the status check and the test fetch (`useEffect` on `programId`, `tests` and `token`). The model exposes `LoadTests` and `CheckAllStatuses` as the transitions those effects run.
- ProgramTests.CheckAllStatuses: the per-test reading is stated for lists with distinct test ids. With a repeated id, the later test's resolution overwrites the earlier one; the model computes that but does not state it.
