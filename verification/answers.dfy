/** The server's data shapes (api/api/utils.py) and `compare_answers`,
    which looks a question up in the answer key and grades the user's
    answers against it. */
module Answers {
  import opened Results

  /** `Correctness`: the verdict passed on to the feedback prompt. */
  datatype Correctness = Correct | Incorrect

  /** `QuizQuestion`: a question's text and its answer options. */
  datatype QuizQuestion = QuizQuestion(question: string, options: seq<string>)

  /** `QuizData`: the quiz sent to the client. */
  datatype QuizData = QuizData(quiz: seq<QuizQuestion>)

  /** `QuestionAnswers`: one entry of the answer key. */
  datatype QuestionAnswers = QuestionAnswers(question: string, answers: seq<string>)

  /** `QuizAnswers`: the answer key, an ordered list of entries. */
  datatype QuizAnswers = QuizAnswers(answers: seq<QuestionAnswers>)

  /** `AnswerRequest`: what the client posts for grading. */
  datatype AnswerRequest = AnswerRequest(question: string, answers: seq<string>, start: bool)

  /** The pair `compare_answers` returns: is the user right, and what the key says. */
  datatype Comparison = Comparison(isCorrect: bool, correctAnswers: seq<string>)

  /** `KeyError("Question not found")`. */
  datatype CompareError = QuestionNotFound

  /** Entry `k` is the first one of the key whose question text is `question`. */
  predicate IsFirstEntry(entries: seq<QuestionAnswers>, question: string, k: nat) {
    && k < |entries|
    && entries[k].question == question
    && forall m :: 0 <= m < k ==> entries[m].question != question
  }

  /** The index the generator expression in `compare_answers` yields first. */
  function FindEntry(entries: seq<QuestionAnswers>, question: string): (r: Option<nat>)
    ensures r.Some? ==> IsFirstEntry(entries, question, r.value)
    ensures r.None? <==> forall m :: 0 <= m < |entries| ==> entries[m].question != question
  {
    if |entries| == 0 then None
    else if entries[0].question == question then Some(0)
    else
      match FindEntry(entries[1..], question)
      case None => None
      case Some(k) =>
        assert forall m :: 1 <= m <= k ==> entries[1..][m - 1] == entries[m];
        Some(k + 1)
  }

  /** `compare_answers`: grade the request against the first key entry
      with the same question text. */
  function CompareAnswers(key: QuizAnswers, request: AnswerRequest): (r: Result<Comparison, CompareError>)
    ensures r.Failure? <==> forall m :: 0 <= m < |key.answers| ==> key.answers[m].question != request.question
    ensures r.Failure? ==> r.error == QuestionNotFound
    ensures forall k: nat :: IsFirstEntry(key.answers, request.question, k) ==>
      r.Success? && r.value.correctAnswers == key.answers[k].answers
    ensures r.Success? ==>
      (r.value.isCorrect <==>
        && |request.answers| == |r.value.correctAnswers|
        && forall n :: 0 <= n < |request.answers| ==> request.answers[n] == r.value.correctAnswers[n])
  {
    match FindEntry(key.answers, request.question)
    case None => Failure(QuestionNotFound)
    case Some(k) =>
      var expected := key.answers[k].answers;
      Success(Comparison(expected == request.answers, expected))
  }

  /** The verdict ignores the `start` flag, and the returned answer list
      ignores the user's answers altogether. */
  lemma CompareIgnoresStartAndAnswers(key: QuizAnswers, request: AnswerRequest, answers: seq<string>, start: bool)
    ensures CompareAnswers(key, request) == CompareAnswers(key, request.(start := start))
    ensures CompareAnswers(key, request).Success? <==> CompareAnswers(key, request.(answers := answers)).Success?
    ensures CompareAnswers(key, request).Success? ==>
      CompareAnswers(key, request).value.correctAnswers == CompareAnswers(key, request.(answers := answers)).value.correctAnswers
  {
  }

  /** Grading is order-sensitive: the right options in another order are wrong. */
  lemma ReorderedAnswersAreIncorrect(key: QuizAnswers, request: AnswerRequest)
    requires CompareAnswers(key, request).Success?
    requires multiset(request.answers) == multiset(CompareAnswers(key, request).value.correctAnswers)
    requires request.answers != CompareAnswers(key, request).value.correctAnswers
    ensures !CompareAnswers(key, request).value.isCorrect
  {
  }

  /** A key with the same question twice: the first entry decides. */
  lemma FirstEntryWins()
    ensures
      var key := QuizAnswers([QuestionAnswers("q", ["a"]), QuestionAnswers("q", ["b"])]);
      CompareAnswers(key, AnswerRequest("q", ["b"], false)) == Success(Comparison(false, ["a"]))
  {
    var key := QuizAnswers([QuestionAnswers("q", ["a"]), QuestionAnswers("q", ["b"])]);
    assert IsFirstEntry(key.answers, "q", 0);
  }
}
