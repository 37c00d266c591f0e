# Quiz feedback application: controller and grading helpers in Dafny

This project models the core of a quiz application with generated feedback.

The client page shows one multiple-choice question at a time. The user clicks
options to select them, then submits the ordered selection for grading. The
page shows the feedback that comes back. After that it either retries the
same question or moves to the next one.

On the server, `compare_answers` grades a request against an answer key.
`FeedbackOutputParser.parse` pulls the feedback text out of the language
model's reply.

Modules:

- `Results` (results.dfy): `Option` and `Result`, standing for `None`/`undefined`
  and for raised exceptions.
- `Text` (text.dfy): Python's `str.strip()` over the characters `str.isspace()`
  accepts. Also substring search.
- `FeedbackParser` (feedback_parser.dfy): `FeedbackOutputParser.parse`. The
  pattern `<feedback>([\s\S]*?)</feedback>` is written out as "first opening tag,
  then first closing tag after it". `SearchMatch` states what `re.search`
  reports: the leftmost start, then the shortest body. `Search` is proved to
  find exactly that match.
- `Answers` (answers.dfy): the data shapes of `api/api/utils.py` and
  `compare_answers`.
- `Selection` (selection.dfy): the option-click rule of the page.
- `Quiz` (quiz.dfy): the page controller. It is one immutable `State` record
  holding the component's `useState` values. `Step` is a pure transition
  function over the events `Loaded`, `LoadFailed`, `Toggle`, `Submit`,
  `GradingOk`, `GradingFailed` and `Next`. `Render` says which view is shown.
  `Enabled` says which events the rendered view can produce. An event that is
  not enabled leaves the state unchanged. `Inv` holds in every reachable state.

Behaviour of the page worth knowing, all of it modelled as the code has it:

- The page has no attempt counter, no score and no final-summary request.
- An incorrect answer allows unlimited retries, and a retry keeps the selection.
- The selection is an ordered list in click order, not a set. Deselecting an
  option and selecting it again moves it to the end of the list. Because the
  server compares lists in order, the same options clicked in another order
  are graded as wrong (`Quiz.ClickOrderMatters`).
- A failed quiz load is only logged. There is no error state, and the loader
  stays on screen.
- Option buttons are not disabled while a grading request is in flight. The
  user can deselect everything during that time. When the response arrives,
  the feedback is shown, the footer button is disabled, and no option is
  shown. `Quiz.DeselectWhileGradingStrands` exhibits such a run.

## Model

| member | source | states |
|---|---|---|
| Selection.Remove | src/App.tsx:207 | the filtered selection keeps every other option with its multiplicity, drops every occurrence of the clicked one, and is the selection itself when the option is absent |
| Selection.RemoveSingleton | src/App.tsx:207 | on a one-element list, the filter keeps the element unless it is the clicked option |
| Selection.RemoveAppend | src/App.tsx:207 | filtering a concatenation filters each part and keeps them in order; with the singleton case this makes the result the order-keeping filter |
| Selection.Toggle | src/App.tsx:205-211 | a selected option is removed by the order-keeping filter; an unselected one is appended at the end; the clicked option's membership flips, no other option's changes, and no duplicate is ever introduced |
| Selection.ToggleTwiceAbsent | src/App.tsx:205-211 | clicking an unselected option twice restores the exact selection |
| Selection.ToggleTwiceSameOptions | src/App.tsx:205-211 | from a duplicate-free selection, clicking any option twice restores the same options (as a multiset) |
| Selection.ToggleTwiceReorders | src/App.tsx:205-211 | clicking a selected option twice moves it to the end, so the list order is not restored |
| Selection.ToggleAllParity | src/App.tsx:205-211 | after any click sequence an option is selected iff it was selected at first xor clicked an odd number of times |
| Selection.ToggleAllNoDuplicates | src/App.tsx:205-211 | no click sequence introduces a duplicate into a duplicate-free selection |
| Selection.ClicksFromEmpty | src/App.tsx:205-211 | starting from no selection, an option is selected iff it was clicked an odd number of times |
| Quiz.Render | src/App.tsx:196-267 | the completed card shows iff the quiz is completed; the loader shows iff the quiz is empty; the question view shows the current question with no feedback; the render would fail exactly when no feedback is shown and the index is outside a loaded quiz |
| Quiz.Enabled | src/App.tsx:78-295 | the load events need the loader on screen and no load yet; a click on an option needs the question view and an option of the current question, and is possible even while a request is in flight; the footer button needs a selection and no request in flight; a response needs a request in flight with answers; after completion no click or load is possible |
| Quiz.InFlightPayload | src/App.tsx:105-164 | along any run from a reachable state, a request in flight carries the payload of the latest submission, or the earlier one if none was made |
| Quiz.InFlightRequestIsLastSubmitted | src/App.tsx:156-164 | in every state reachable from mount with a request in flight, the request posted is exactly the latest submitted payload, whatever options were clicked since |
| Quiz.Step | src/App.tsx:78-148 | a disabled event changes nothing, the question index never decreases, and only the first load replaces the quiz data |
| Quiz.InitInv | src/App.tsx:61-76 | the mount state satisfies the controller invariant |
| Quiz.StepInv | src/App.tsx:105-211 | every transition keeps the invariant: duplicate-free selection, index inside the loaded quiz, a request in flight only with answers and no feedback, completion only with a correct answer on the last question |
| Quiz.RunInv | src/App.tsx:105-211 | the invariant holds after any sequence of events |
| Quiz.ReachableRenders | src/App.tsx:213-267 | in every reachable state the index is inside the loaded quiz, so rendering the current question never fails |
| Quiz.RunIndexMonotone | src/App.tsx:124-146 | the question index never decreases along any run |
| Quiz.CompletedIsFinal | src/App.tsx:196-198 | once completed, only the completed view is rendered, no event is enabled and every run leaves the state unchanged |
| Quiz.ToggleEffect | src/App.tsx:205-211 | an option click changes the selection by the toggle rule and nothing else in the state |
| Quiz.ButtonRule | src/App.tsx:290-295 | the footer button acts only with a non-empty selection and no request in flight; it submits when no feedback is shown and moves on otherwise |
| Quiz.SubmitEffect | src/App.tsx:105-113 | a submission captures the current question's text, the selection and the start flag, sets a request in flight and clears the start flag |
| Quiz.LoadingHasRequest | src/App.tsx:156-194 | whenever a request is marked in flight its payload has answers, so the request is actually sent and can resolve |
| Quiz.GradingOkEffect | src/App.tsx:171-174 | a successful response's feedback and correctness are taken verbatim and the request is no longer in flight |
| Quiz.GradingFailedUnblocks | src/App.tsx:175-184 | any failed request shows the fixed error message and counts as correct, so the next click advances or completes rather than retrying |
| Quiz.NextAfterCorrect | src/App.tsx:124-133 | after a correct answer before the last question, the index rises by exactly one and selection, feedback, correctness and payload are reset |
| Quiz.NextAfterIncorrect | src/App.tsx:134-143 | after an incorrect answer the index stays, feedback and payload are cleared, the selection is kept and the quiz does not complete |
| Quiz.CompletionRule | src/App.tsx:124-146 | the quiz becomes completed iff the event is an enabled `Next` after a correct answer on the last question |
| Quiz.SubmittedNonEmpty | src/App.tsx:105-113 | every payload submitted along any run carries a non-empty answer list |
| Quiz.StartOnlyFirst | src/App.tsx:87-113 | along any run from a reachable state, no submission after the first carries the start flag, and none does once the quiz is loaded and the flag is clear |
| Quiz.StartAtMostOnce | src/App.tsx:87-113 | from mount, the start flag is sent with at most the first submission |
| Quiz.DeselectWhileGradingStrands | src/App.tsx:243-295 | a concrete run in which deselecting during grading leaves an uncompleted quiz where no event is enabled |
| Quiz.ClickOrderMatters | src/App.tsx:105-110 | clicking the two correct options in reverse order posts them in that order, and the server grades the request as incorrect |
| Answers.FindEntry | api/api/utils.py:168-175 | the index found is the first entry with the requested question text; none is found iff no entry has it |
| Answers.CompareAnswers | api/api/utils.py:148-183 | fails with `QuestionNotFound` iff no key entry has the question; otherwise it returns the first such entry's answers, and the verdict holds iff the user's list equals it element by element and in order |
| Answers.CompareIgnoresStartAndAnswers | api/api/utils.py:148-183 | the result does not depend on the start flag, and the returned answer list does not depend on the user's answers |
| Answers.ReorderedAnswersAreIncorrect | api/api/utils.py:181 | a permutation of the correct answers that differs from them as a list is graded incorrect |
| Answers.FirstEntryWins | api/api/utils.py:168-175 | with the same question twice in the key, the first entry decides |
| Text.IndexOfFrom | api/api/helpers.py:62 | returns the first position at or after the start where the pattern occurs, or none iff it occurs nowhere there |
| Text.Strip | api/api/helpers.py:68 | the result has no leading or trailing whitespace and is a slice of the input surrounded only by whitespace |
| Text.StripUnique | api/api/helpers.py:68 | that characterisation determines the stripped text uniquely |
| Text.StripIdempotent | api/api/helpers.py:68 | stripping twice is stripping once |
| FeedbackParser.Search | api/api/helpers.py:61-62 | finds a match iff the text holds an opening tag followed later by a closing tag, and then it is the leftmost match with the shortest body |
| FeedbackParser.SearchMatchUnique | api/api/helpers.py:61-62 | the match the regular-expression search reports is unique |
| FeedbackParser.Parse | api/api/helpers.py:60-68 | fails with the received text iff there is no match; otherwise returns the stripped body of the reported match, which has no edge whitespace and holds no closing tag |
| FeedbackParser.BodyAvoidsClose | api/api/helpers.py:61 | the body of the reported match contains no closing tag, because the group is lazy |
| FeedbackParser.ParseAtMatch | api/api/helpers.py:61-68 | parsing returns the stripped body between the reported opening and closing tags |
| FeedbackParser.WrapThenParse | api/api/helpers.py:61-68 | for a text without a closing tag, wrapping it in the two tags and parsing gives back the stripped text |
| FeedbackParser.SearchMatchExtended | api/api/helpers.py:61-62 | appending to a text keeps its reported match |
| FeedbackParser.ParseIgnoresSuffix | api/api/helpers.py:61-62 | appending any suffix to a text that parses leaves the result unchanged |

## Left out

- Network calls and JSON transport are not modelled. This covers the `fetch` calls of the page, the Flask routes and the dev-server proxy. A load is the `Loaded`/`LoadFailed` event. Any grading outcome is `GradingOk` or `GradingFailed`; a non-ok status such as 400 or 500 counts as `GradingFailed`.
- `Loaded` carries a well-formed question list. A response body without a `quiz` field would make the page throw while rendering; that case is not modelled.
- `Quiz.Enabled` allows `Loaded` again after `LoadFailed`, because the state cannot tell the two apart. The page fetches only once, so this only adds runs the page cannot produce.
- The `setTimeout` delays and the `isVisible` fade flag are not modelled; every event takes effect at once.
- A grading response that arrives in a state with no request in flight is ignored by `Quiz.Step`. The page cannot produce that case: the footer button is disabled while a request is in flight.
- Markdown rendering and the presentation components (loader, completed card, error card, feedback card) are left out. The completed card's restart reloads the page.
- The language-model setup and invocation (`get_runnable`, `generate_feedback`, the template file reads) are left out. They are foreign library calls with nondeterministic output. The patched Mistral client is left out for the same reason.
- The request handler's session ids, file loads and logging are I/O and are not modelled. It also uses `generate_final_feedback` and `FinalFeedback`, which are not part of this model.
- Scoring, attempt limits and a final summary are not modelled, because the page code has none of them.
- `Text.IsSpace` lists the characters Python's `str.isspace()` accepts. It follows the Unicode tables Python uses, written out by hand.
