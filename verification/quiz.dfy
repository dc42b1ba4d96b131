/** The quiz flow: `get_next_question` and the POST /play resource. */
module Quiz {
  import opened Http
  import opened Tables

  /** `quiz_category` as the handler sees it: absent or falsy (None, `{}`), an
      object carrying an id, or a non-empty object without an `id` key. */
  datatype QuizCategoryArg = NoCategory | CategoryObject(id: int) | ObjectWithoutId

  /** The body of POST /play; `previousQuestions` may be absent from the JSON. */
  datatype QuizRequest = QuizRequest(previousQuestions: Option<seq<int>>, quizCategory: QuizCategoryArg)

  datatype QuizBody = QuizBody(question: Option<Question>)

  /** A question is in scope for category id `category`; 0 stands for all. */
  predicate InScope(q: Question, category: int) {
    category != 0 ==> q.category == Some(category)
  }

  /** The query `get_next_question` issues. */
  function PoolCriterion(previous: seq<int>, category: int): Criterion {
    if category != 0 then Both(CategoryIs(category), IdNotIn(previous)) else IdNotIn(previous)
  }

  /** The candidates: questions in scope whose id has not been shown yet. */
  function Pool(previous: seq<int>, category: int, s: Store): (r: seq<Question>)
    ensures forall q :: q in r <==> q in s.questions && InScope(q, category) && q.id !in previous
  {
    var c := PoolCriterion(previous, category);
    assert forall q :: Holds(c, q) <==> InScope(q, category) && q.id !in previous;
    Select(s.questions, c)
  }

  /** `get_next_question` once the category id is known: one arbitrary
      candidate, or None when there is none. `random.choice` becomes a
      nondeterministic pick. */
  method NextQuestion(previous: seq<int>, category: int, s: Store) returns (r: Option<Question>)
    ensures r.None? <==> |Pool(previous, category, s)| == 0
    ensures r.Some? ==> r.value in Pool(previous, category, s)
    ensures r.Some? ==> r.value in s.questions && r.value.id !in previous && InScope(r.value, category)
  {
    var pool := Pool(previous, category, s);
    if |pool| > 0 {
      assert pool[0] in pool;
      var q :| q in pool;
      r := Some(q);
    } else {
      r := None;
    }
  }

  /** The category id `get_next_question` filters on; a non-empty object
      without an `id` key makes the lookup fail. */
  function CategoryId(arg: QuizCategoryArg): (r: Option<int>)
    ensures arg.ObjectWithoutId? <==> r.None?
    ensures arg.NoCategory? ==> r == Some(0)
    ensures arg.CategoryObject? ==> r == Some(arg.id)
  {
    match arg
    case NoCategory => Some(0)
    case CategoryObject(id) => Some(id)
    case ObjectWithoutId => None
  }

  /** POST /play: the next question, or None when the quiz is over. The
      `KeyError` of a category object without id is caught by the catch-all
      `except Exception` and answered with 500. */
  method PlayQuiz(req: QuizRequest, s: Store) returns (r: Outcome<QuizBody>)
    ensures req.quizCategory.ObjectWithoutId? ==> r == Abort(InternalServerError)
    ensures !req.quizCategory.ObjectWithoutId? ==> r.Ok?
    ensures r.Ok? ==>
      var previous := if req.previousQuestions.Some? then req.previousQuestions.value else [];
      var category := CategoryId(req.quizCategory).value;
      && (r.value.question.None? <==> |Pool(previous, category, s)| == 0)
      && (r.value.question.Some? ==>
            var q := r.value.question.value;
            q in s.questions && q.id !in previous && InScope(q, category))
  {
    var previous := if req.previousQuestions.Some? then req.previousQuestions.value else [];
    match CategoryId(req.quizCategory)
    case None =>
      r := Abort(InternalServerError);
    case Some(category) =>
      var next := NextQuestion(previous, category, s);
      r := Ok(QuizBody(next));
  }

  /** Adding a candidate's id to the previous questions removes it from the
      pool and keeps everything else. */
  lemma PickShrinksPool(previous: seq<int>, category: int, s: Store, q: Question)
    requires q in Pool(previous, category, s)
    ensures |Pool(previous + [q.id], category, s)| < |Pool(previous, category, s)|
  {
    var wide, narrow := PoolCriterion(previous, category), PoolCriterion(previous + [q.id], category);
    assert Holds(wide, q) && !Holds(narrow, q);
    SelectNarrower(s.questions, wide, narrow);
  }

  /** A fresh quiz over all categories always gets a question when any exists. */
  lemma FreshQuizHasQuestion(s: Store)
    requires |s.questions| > 0
    ensures |Pool([], 0, s)| > 0
  {
    assert s.questions[0] in Pool([], 0, s);
  }

  /** A quiz session as the client plays it: ask for the next question, add
      its id to the previous questions, and repeat until the answer is None.
      The session ends, never shows a question twice, and has shown every
      question in scope by the time it ends. */
  method PlaySession(category: int, s: Store) returns (shown: seq<int>)
    ensures forall q :: q in s.questions && InScope(q, category) ==> q.id in shown
    ensures forall i, j :: 0 <= i < j < |shown| ==> shown[i] != shown[j]
    ensures forall k :: k in shown ==> exists q :: q in s.questions && InScope(q, category) && q.id == k
  {
    shown := [];
    var next := NextQuestion(shown, category, s);
    while next.Some?
      invariant next.Some? ==> next.value in Pool(shown, category, s)
      invariant next.None? ==> |Pool(shown, category, s)| == 0
      invariant forall i, j :: 0 <= i < j < |shown| ==> shown[i] != shown[j]
      invariant forall k :: k in shown ==> exists q :: q in s.questions && InScope(q, category) && q.id == k
      decreases |Pool(shown, category, s)|
    {
      var q := next.value;
      PickShrinksPool(shown, category, s, q);
      shown := shown + [q.id];
      next := NextQuestion(shown, category, s);
    }
    assert Pool(shown, category, s) == [];
  }
}
