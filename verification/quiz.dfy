/** The quiz page controller (`Quiz` in src/App.tsx) as one immutable state
    record and a pure transition function.

    The component keeps its state in independent `useState` hooks; `State`
    gathers them. The events are the ones that change that state: the quiz
    data arriving or failing to arrive, a click on an option, a click on the
    footer button (which submits while no feedback is shown and moves on
    once it is), and the grading request succeeding or failing. Timer delays
    are collapsed: every event takes effect at once. */
module Quiz {
  import opened Results
  import opened Answers
  import Selection

  /** The message shown in place of feedback when grading fails. */
  const GradingErrorMessage: string :=
    "An error occurred while sending the answers to the server. Please try again later."

  /** The request payload held before any submission and after each `Next`. */
  const EmptyPayload: AnswerRequest := AnswerRequest("", [], false)

  datatype State = State(
    quiz: seq<QuizQuestion>,   // quizData.quiz
    index: nat,                // currentQuestionIndex
    selected: seq<string>,     // selectedAnswers, in click order
    payload: AnswerRequest,    // answers: the request body to post
    feedback: string,          // feedback, "" when none is shown
    isCorrect: bool,
    isLoading: bool,           // a grading request is in flight
    start: bool,               // the next submission is the first one
    completed: bool            // quizCompleted
  )

  /** The state on mount. */
  const Init: State := State([], 0, [], EmptyPayload, "", false, false, false, false)

  datatype Event =
    | Loaded(data: seq<QuizQuestion>)
    | LoadFailed
    | Toggle(option: string)
    | Submit
    | GradingOk(text: string, correct: bool)
    | GradingFailed
    | Next

  /** What the component renders. `Crashed` stands for a render that would
      throw because the current index is outside the quiz. */
  datatype Screen =
    | CompletedScreen
    | LoaderScreen
    | FeedbackScreen(text: string)
    | QuestionScreen(current: QuizQuestion)
    | Crashed

  function Render(s: State): (r: Screen)
    ensures r == CompletedScreen <==> s.completed
    ensures r == LoaderScreen <==> !s.completed && |s.quiz| == 0
    ensures r.QuestionScreen? ==> s.feedback == "" && s.index < |s.quiz| && r.current == s.quiz[s.index]
    ensures r.Crashed? <==> !s.completed && |s.quiz| > 0 && s.feedback == "" && s.index >= |s.quiz|
  {
    if s.completed then CompletedScreen
    else if |s.quiz| == 0 then LoaderScreen
    else if s.feedback != "" then FeedbackScreen(s.feedback)
    else if s.index < |s.quiz| then QuestionScreen(s.quiz[s.index])
    else Crashed
  }

  /** The footer button is disabled with nothing selected or a request in flight. */
  predicate ButtonEnabled(s: State) {
    |s.selected| > 0 && !s.isLoading
  }

  /** The request `generateFeedback` posts: none when the payload holds no answers. */
  function GradingRequest(s: State): Option<AnswerRequest> {
    if |s.payload.answers| > 0 then Some(s.payload) else None
  }

  /** Whether the running page can produce `e` in state `s`: a click needs a
      rendered, enabled control; a response needs a request in flight; the
      quiz data arrives once, while the loader is shown. */
  function Enabled(s: State, e: Event): (b: bool)
    ensures b && (e.Loaded? || e.LoadFailed?) ==> |s.quiz| == 0 && !s.start && !s.completed
    ensures b && e.Toggle? ==> !s.completed && s.feedback == "" && s.index < |s.quiz|
    ensures b && e.Toggle? ==> e.option in s.quiz[s.index].options
    ensures b && (e.Submit? || e.Next?) ==> |s.selected| > 0 && !s.isLoading && !s.completed
    ensures b && (e.GradingOk? || e.GradingFailed?) ==> s.isLoading && |s.payload.answers| > 0
    ensures e.Toggle? && Render(s).QuestionScreen? && e.option in s.quiz[s.index].options ==> b
    ensures s.completed ==> (b ==> e.GradingOk? || e.GradingFailed?)
  {
    match e
    case Loaded(_) => Render(s).LoaderScreen? && !s.start
    case LoadFailed => Render(s).LoaderScreen? && !s.start
    case Toggle(o) => Render(s).QuestionScreen? && o in Render(s).current.options
    case Submit => Render(s).QuestionScreen? && ButtonEnabled(s)
    case Next => Render(s).FeedbackScreen? && ButtonEnabled(s)
    case GradingOk(_, _) => s.isLoading && GradingRequest(s).Some?
    case GradingFailed => s.isLoading && GradingRequest(s).Some?
  }

  /** One transition. An event the page cannot produce changes nothing. */
  function Step(s: State, e: Event): (t: State)
    ensures !Enabled(s, e) ==> t == s
    ensures t.index >= s.index
    ensures t.quiz == s.quiz || (|s.quiz| == 0 && e.Loaded?)
  {
    if !Enabled(s, e) then s
    else
      match e
      case Loaded(data) => s.(quiz := data, start := true)
      case LoadFailed => s
      case Toggle(o) => s.(selected := Selection.Toggle(s.selected, o))
      case Submit =>
        s.(payload := AnswerRequest(Render(s).current.question, s.selected, s.start),
           isLoading := true,
           start := false)
      case GradingOk(text, correct) => s.(feedback := text, isCorrect := correct, isLoading := false)
      case GradingFailed => s.(feedback := GradingErrorMessage, isCorrect := true, isLoading := false)
      case Next =>
        if s.isCorrect && s.index < |s.quiz| - 1 then
          s.(index := s.index + 1, selected := [], feedback := "", isCorrect := false, payload := EmptyPayload)
        else if !s.isCorrect && s.index < |s.quiz| then
          s.(feedback := "", payload := EmptyPayload)
        else
          s.(completed := true)
  }

  /** The state after the events `es`, in order. */
  function Run(s: State, es: seq<Event>): State
    decreases |es|
  {
    if |es| == 0 then s else Run(Step(s, es[0]), es[1..])
  }

  /** What holds of every state the page can reach. */
  predicate Inv(s: State) {
    && Selection.NoDuplicates(s.selected)
    && (|s.quiz| == 0 ==>
          && s.index == 0 && s.selected == [] && s.payload == EmptyPayload && s.feedback == ""
          && !s.isCorrect && !s.isLoading && !s.completed)
    && (|s.quiz| > 0 ==> s.index < |s.quiz|)
    && (s.isLoading ==> |s.payload.answers| > 0 && s.feedback == "" && !s.completed)
    && (s.completed ==> s.isCorrect && s.index == |s.quiz| - 1 && !s.isLoading)
  }

  lemma InitInv()
    ensures Inv(Init)
  {
  }

  lemma StepInv(s: State, e: Event)
    requires Inv(s)
    ensures Inv(Step(s, e))
  {
  }

  lemma {:induction false} RunInv(s: State, es: seq<Event>)
    requires Inv(s)
    ensures Inv(Run(s, es))
    decreases |es|
  {
    if |es| > 0 {
      StepInv(s, es[0]);
      RunInv(Step(s, es[0]), es[1..]);
    }
  }

  /** Every reachable state renders without throwing, and the index stays
      inside the quiz once it is loaded. */
  lemma ReachableRenders(es: seq<Event>)
    ensures Inv(Run(Init, es))
    ensures !Render(Run(Init, es)).Crashed?
    ensures |Run(Init, es).quiz| > 0 ==> Run(Init, es).index < |Run(Init, es).quiz|
  {
    RunInv(Init, es);
  }

  /** The index never decreases along a run. */
  lemma {:induction false} RunIndexMonotone(s: State, es: seq<Event>)
    ensures Run(s, es).index >= s.index
    decreases |es|
  {
    if |es| > 0 {
      RunIndexMonotone(Step(s, es[0]), es[1..]);
    }
  }

  /** Once completed, only the completed view is shown and nothing changes. */
  lemma {:induction false} CompletedIsFinal(s: State, es: seq<Event>)
    requires Inv(s) && s.completed
    ensures Render(s) == CompletedScreen
    ensures forall e :: !Enabled(s, e)
    ensures Run(s, es) == s
    decreases |es|
  {
    if |es| > 0 {
      CompletedIsFinal(Step(s, es[0]), es[1..]);
    }
  }

  /** Clicking an option edits the selection by the toggle rule and nothing else. */
  lemma ToggleEffect(s: State, o: string)
    requires Enabled(s, Toggle(o))
    ensures Step(s, Toggle(o)) == s.(selected := Selection.Toggle(s.selected, o))
    ensures o in s.selected ==> o !in Step(s, Toggle(o)).selected
    ensures o !in s.selected ==> Step(s, Toggle(o)).selected == s.selected + [o]
  {
  }

  /** The footer button acts only with a non-empty selection and no request
      in flight; it submits exactly when no feedback is shown. */
  lemma ButtonRule(s: State)
    ensures Enabled(s, Submit) ==> |s.selected| > 0 && !s.isLoading && s.feedback == ""
    ensures Enabled(s, Next) ==> |s.selected| > 0 && !s.isLoading && s.feedback != ""
    ensures !(Enabled(s, Submit) && Enabled(s, Next))
  {
  }

  /** Submitting captures the current question, the selection and the start
      flag, marks a request in flight and clears the start flag. */
  lemma SubmitEffect(s: State)
    requires Inv(s) && Enabled(s, Submit)
    ensures s.index < |s.quiz|
    ensures Step(s, Submit).payload == AnswerRequest(s.quiz[s.index].question, s.selected, s.start)
    ensures Step(s, Submit).isLoading && !Step(s, Submit).start
    ensures GradingRequest(Step(s, Submit)) == Some(Step(s, Submit).payload)
  {
  }

  /** While a request is in flight it is always actually sent: its answers
      are never empty. */
  lemma LoadingHasRequest(s: State)
    requires Inv(s) && s.isLoading
    ensures GradingRequest(s) == Some(s.payload)
    ensures Enabled(s, GradingOk("", false)) && Enabled(s, GradingFailed)
  {
  }

  /** A successful response is shown verbatim. */
  lemma GradingOkEffect(s: State, text: string, correct: bool)
    requires Enabled(s, GradingOk(text, correct))
    ensures Step(s, GradingOk(text, correct)).feedback == text
    ensures Step(s, GradingOk(text, correct)).isCorrect == correct
    ensures !Step(s, GradingOk(text, correct)).isLoading
  {
  }

  /** A failed request, whatever the cause, shows the fixed message and counts
      as correct, so the next click moves on rather than retrying. */
  lemma GradingFailedUnblocks(s: State)
    requires Inv(s) && Enabled(s, GradingFailed)
    ensures Step(s, GradingFailed).feedback == GradingErrorMessage
    ensures Step(s, GradingFailed).isCorrect
    ensures !Step(s, GradingFailed).isLoading
    ensures
      var t := Step(s, GradingFailed);
      Enabled(t, Next) ==>
        (Step(t, Next).index == t.index + 1 || Step(t, Next).completed)
  {
  }

  /** After a correct answer on any question but the last, `Next` moves to
      the following question with a fresh selection, feedback and payload. */
  lemma NextAfterCorrect(s: State)
    requires Inv(s) && Enabled(s, Next)
    requires s.isCorrect && s.index < |s.quiz| - 1
    ensures
      var t := Step(s, Next);
      && t.index == s.index + 1
      && t.selected == [] && t.feedback == "" && !t.isCorrect
      && t.payload == EmptyPayload && !t.completed
  {
  }

  /** After an incorrect answer, `Next` retries the same question: feedback
      and payload are cleared, the selection is kept. */
  lemma NextAfterIncorrect(s: State)
    requires Inv(s) && Enabled(s, Next)
    requires !s.isCorrect
    ensures
      var t := Step(s, Next);
      && t.index == s.index
      && t.selected == s.selected
      && t.feedback == "" && t.payload == EmptyPayload
      && !t.completed
  {
  }

  /** The quiz completes only on `Next` after a correct answer to the last question. */
  lemma CompletionRule(s: State, e: Event)
    requires Inv(s) && !s.completed
    ensures Step(s, e).completed <==>
      e == Next && Enabled(s, Next) && s.isCorrect && s.index == |s.quiz| - 1
  {
  }

  /** The request payloads submitted along a run, in order. */
  function Submitted(s: State, es: seq<Event>): seq<AnswerRequest>
    decreases |es|
  {
    if |es| == 0 then []
    else
      var sent := if es[0] == Submit && Enabled(s, Submit) then [Step(s, Submit).payload] else [];
      sent + Submitted(Step(s, es[0]), es[1..])
  }

  /** Every submitted payload carries a non-empty answer list. */
  lemma {:induction false} SubmittedNonEmpty(s: State, es: seq<Event>)
    ensures forall k :: 0 <= k < |Submitted(s, es)| ==> |Submitted(s, es)[k].answers| > 0
    decreases |es|
  {
    if |es| > 0 {
      SubmittedNonEmpty(Step(s, es[0]), es[1..]);
    }
  }

  /** Only the first submission after the quiz loads can carry `start`. */
  lemma {:induction false} StartOnlyFirst(s: State, es: seq<Event>)
    requires Inv(s)
    ensures forall k :: 1 <= k < |Submitted(s, es)| ==> !Submitted(s, es)[k].start
    ensures !s.start && |s.quiz| > 0 ==>
      forall k :: 0 <= k < |Submitted(s, es)| ==> !Submitted(s, es)[k].start
    decreases |es|
  {
    if |es| > 0 {
      var t := Step(s, es[0]);
      StepInv(s, es[0]);
      StartOnlyFirst(t, es[1..]);
    }
  }

  /** While a request is in flight, the payload is the one captured by the
      latest submission, whatever was clicked since. */
  lemma {:induction false} InFlightPayload(s: State, es: seq<Event>)
    requires Inv(s)
    ensures
      var t := Run(s, es);
      var sent := Submitted(s, es);
      t.isLoading ==>
        if |sent| > 0 then t.payload == sent[|sent| - 1]
        else s.isLoading && t.payload == s.payload
    decreases |es|
  {
    if |es| > 0 {
      StepInv(s, es[0]);
      InFlightPayload(Step(s, es[0]), es[1..]);
    }
  }

  /** In every state reachable from mount with a request in flight, the
      request posted is the payload of the latest submission. */
  lemma InFlightRequestIsLastSubmitted(es: seq<Event>)
    ensures
      var t := Run(Init, es);
      var sent := Submitted(Init, es);
      t.isLoading ==> |sent| > 0 && GradingRequest(t) == Some(sent[|sent| - 1])
  {
    InFlightPayload(Init, es);
    RunInv(Init, es);
  }

  lemma StartAtMostOnce(es: seq<Event>)
    ensures forall k :: 1 <= k < |Submitted(Init, es)| ==> !Submitted(Init, es)[k].start
  {
    StartOnlyFirst(Init, es);
  }

  /** Options stay clickable while grading is in flight. Deselecting the only
      selected option then leaves the feedback on screen with the footer
      button disabled and no option to click: no event can occur any more,
      although the quiz is not completed. */
  lemma DeselectWhileGradingStrands()
    ensures
      var t := Run(Init, [Loaded([QuizQuestion("q", ["a"])]), Toggle("a"), Submit, Toggle("a"), GradingOk("ok", true)]);
      && !t.completed
      && Render(t) == FeedbackScreen("ok")
      && forall e :: !Enabled(t, e)
  {
    var q := QuizQuestion("q", ["a"]);
    var s1 := Step(Init, Loaded([q]));
    assert s1 == Init.(quiz := [q], start := true);
    var s2 := Step(s1, Toggle("a"));
    assert s2 == s1.(selected := ["a"]);
    var s3 := Step(s2, Submit);
    assert s3 == s2.(payload := AnswerRequest("q", ["a"], true), isLoading := true, start := false);
    var s4 := Step(s3, Toggle("a"));
    assert Selection.Remove(["a"], "a") == [];
    assert s4 == s3.(selected := []);
    var s5 := Step(s4, GradingOk("ok", true));
    assert s5 == s4.(feedback := "ok", isCorrect := true, isLoading := false);
    var es := [Loaded([q]), Toggle("a"), Submit, Toggle("a"), GradingOk("ok", true)];
    assert Run(s5, []) == s5;
    assert Run(Init, es) == Run(s1, es[1..]) == Run(s2, es[2..]) == Run(s3, es[3..]) == Run(s4, es[4..]) == Run(s5, []);
  }

  /** The selection is posted in click order and the server compares lists
      in order: clicking the right options in the other order is graded
      wrong. */
  lemma ClickOrderMatters()
    ensures
      var q := QuizQuestion("q", ["a", "b"]);
      var key := QuizAnswers([QuestionAnswers("q", ["a", "b"])]);
      var t := Run(Init, [Loaded([q]), Toggle("b"), Toggle("a"), Submit]);
      && t.payload == AnswerRequest("q", ["b", "a"], true)
      && CompareAnswers(key, t.payload) == Success(Comparison(false, ["a", "b"]))
  {
    var q := QuizQuestion("q", ["a", "b"]);
    var key := QuizAnswers([QuestionAnswers("q", ["a", "b"])]);
    var s1 := Step(Init, Loaded([q]));
    assert s1 == Init.(quiz := [q], start := true);
    var s2 := Step(s1, Toggle("b"));
    assert s2 == s1.(selected := ["b"]);
    var s3 := Step(s2, Toggle("a"));
    assert s3 == s1.(selected := ["b", "a"]);
    var s4 := Step(s3, Submit);
    assert s4.payload == AnswerRequest("q", ["b", "a"], true);
    var es := [Loaded([q]), Toggle("b"), Toggle("a"), Submit];
    assert Run(s4, []) == s4;
    assert Run(Init, es) == Run(s1, es[1..]) == Run(s2, es[2..]) == Run(s3, es[3..]) == Run(s4, []);
    assert IsFirstEntry(key.answers, "q", 0);
    assert ["b", "a"] != ["a", "b"] by { assert ["b", "a"][0] != ["a", "b"][0]; }
  }
}
