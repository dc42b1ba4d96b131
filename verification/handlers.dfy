/** The REST resources of the trivia API, each a pure function from the
    request's fields and the store to the outcome (and, for the writing
    handlers, the store afterwards). The quiz resource lives in `Quiz`. */
module Handlers {
  import opened Text
  import opened Http
  import opened Tables
  import opened Pagination

  /** Response bodies; field names follow the JSON keys. */
  datatype QuestionsBody = QuestionsBody(questions: seq<Question>, totalQuestions: nat,
                                         categories: map<nat, string>)
  datatype CreatedBody = CreatedBody(created: nat, questionCreated: string,
                                     questions: seq<Question>, totalQuestions: nat)
  datatype SearchBody = SearchBody(questions: seq<Question>, totalQuestions: nat)
  datatype DeletedBody = DeletedBody(deleted: nat, totalQuestions: nat)
  datatype CategoryQuestionsBody = CategoryQuestionsBody(questions: seq<Question>, totalQuestions: nat,
                                                         currentCategory: string)

  /** The body of POST /questions; each field may be absent from the JSON. */
  datatype NewQuestion = NewQuestion(question: Option<string>, answer: Option<string>,
                                     difficulty: Option<int>, category: Option<int>)

  /** A text field Python treats as false: absent (None) or empty. */
  predicate Blank(field: Option<string>) {
    field.None? || field.value == ""
  }

  // ------------------------------------------------------ GET /categories

  /** GET /categories: every category as `{id: type}`, or 404 when there are none. */
  function GetCategories(s: Store): (r: Outcome<map<nat, string>>)
    requires Valid(s)
    ensures r.Abort? <==> |s.categories| == 0
    ensures r.Abort? ==> r.status == NotFound
    ensures r.Ok? ==> r.value.Keys == CategoryIds(s.categories)
    ensures r.Ok? ==> forall c :: c in s.categories ==> r.value[c.id] == c.kind
  {
    CategoryMapOfValid(s.categories);
    assert |s.categories| > 0 ==> s.categories[0].id in CategoryIds(s.categories);
    var m := CategoryMap(s.categories);
    if |m| == 0 then Abort(NotFound) else Ok(m)
  }

  // ------------------------------------------------------- GET /questions

  /** GET /questions: one page of all questions, the total and the category
      dictionary; 404 whenever the requested page is empty. */
  function GetQuestions(page: PageArg, s: Store): (r: Outcome<QuestionsBody>)
    requires Valid(s) && Supported(page)
    ensures r.Abort? <==> |s.questions| <= (PageNumber(page) - 1) * PerPage
    ensures r.Abort? ==> r.status == NotFound
    ensures r.Ok? ==> r.value.totalQuestions == |s.questions|
    ensures r.Ok? ==> r.value.questions == Page(s.questions, PageNumber(page))
    ensures r.Ok? ==> 0 < |r.value.questions| <= PerPage
    ensures r.Ok? ==> r.value.categories.Keys == CategoryIds(s.categories)
    ensures r.Ok? ==> forall c :: c in s.categories ==> r.value.categories[c.id] == c.kind
  {
    CategoryMapOfValid(s.categories);
    var view := Paginate(s.questions, page);
    if |view.items| == 0 then Abort(NotFound)
    else Ok(QuestionsBody(view.items, view.total, CategoryMap(s.categories)))
  }

  /** An empty table answers 404 on every page; a non-empty one answers page 1. */
  lemma ListingEmptyIffNoQuestions(page: PageArg, s: Store)
    requires Valid(s) && Supported(page)
    ensures |s.questions| == 0 ==> GetQuestions(page, s) == Abort(NotFound)
    ensures |s.questions| > 0 && !page.Number? ==> GetQuestions(page, s).Ok?
  {
  }

  // ------------------------------------------------------ POST /questions

  /** POST /questions as written: a blank question or answer raises a 400
      inside the `try`, which the catch-all `except Exception` turns into 500;
      otherwise the question is inserted and a fresh page of all questions is
      returned. */
  function CreateQuestion(req: NewQuestion, page: PageArg, s: Store): (r: (Outcome<CreatedBody>, Store))
    requires Valid(s) && Supported(page)
    ensures Blank(req.question) || Blank(req.answer) ==> r.0 == Abort(InternalServerError) && r.1 == s
    ensures !Blank(req.question) && !Blank(req.answer) ==>
      && r.0.Ok?
      && AppendedOne(s, r.1, Question(r.0.value.created, req.question.value, req.answer.value,
                                      req.difficulty, req.category))
      && r.0.value.questionCreated == req.question.value
      && r.0.value.totalQuestions == |s.questions| + 1
      && r.0.value.questions == Page(r.1.questions, PageNumber(page))
  {
    if Blank(req.question) || Blank(req.answer) then
      (Abort(InternalServerError), s)
    else
      var (s2, q) := Insert(s, req.question.value, req.answer.value, req.difficulty, req.category);
      var view := Paginate(s2.questions, page);
      (Ok(CreatedBody(q.id, q.question, view.items, view.total)), s2)
  }

  /** POST /questions as its `abort(400, ...)` evidently intends: a blank field
      is reported as 400 and nothing is stored. */
  function CreateQuestionIntended(req: NewQuestion, page: PageArg, s: Store): (r: (Outcome<CreatedBody>, Store))
    requires Valid(s) && Supported(page)
    ensures Blank(req.question) || Blank(req.answer) ==> r.0 == Abort(BadRequest) && r.1 == s
    ensures !Blank(req.question) && !Blank(req.answer) ==> r == CreateQuestion(req, page, s)
  {
    if Blank(req.question) || Blank(req.answer) then (Abort(BadRequest), s)
    else CreateQuestion(req, page, s)
  }

  /** A request with an empty question text gets 500 from the code as written
      where 400 was meant; the two agree on the store. */
  lemma BlankQuestionStatusSwallowed(s: Store)
    requires Valid(s)
    ensures var req := NewQuestion(Some(""), Some("Paris"), None, None);
            && CreateQuestion(req, Missing, s).0 == Abort(InternalServerError)
            && CreateQuestionIntended(req, Missing, s).0 == Abort(BadRequest)
            && CreateQuestion(req, Missing, s).1 == CreateQuestionIntended(req, Missing, s).1
  {
  }

  /** For every request the handler as written and the intended one leave the
      same store, and they answer differently exactly when a field is blank. */
  lemma CreateStatusDiffersOnlyWhenBlank(req: NewQuestion, page: PageArg, s: Store)
    requires Valid(s) && Supported(page)
    ensures CreateQuestion(req, page, s).1 == CreateQuestionIntended(req, page, s).1
    ensures CreateQuestion(req, page, s).0 != CreateQuestionIntended(req, page, s).0
            <==> Blank(req.question) || Blank(req.answer)
  {
  }

  // ----------------------------------------------- POST /questions/search

  /** The questions the ILIKE filter for `term` selects, in id order. */
  function Matches(s: Store, term: string): seq<Question> {
    Select(s.questions, TextContains(term))
  }

  /** POST /questions/search as written: a blank `searchTerm` raises a 400 that
      the catch-all turns into 500; otherwise one page of the questions whose
      text contains the term, ignoring case, and the number of all of them. */
  function SearchQuestions(term: Option<string>, page: PageArg, s: Store): (r: Outcome<SearchBody>)
    requires Valid(s) && Supported(page)
    ensures Blank(term) ==> r == Abort(InternalServerError)
    ensures !Blank(term) ==> r.Ok?
    ensures r.Ok? ==> r.value.totalQuestions == |Matches(s, term.value)|
    ensures r.Ok? ==> r.value.questions == Page(Matches(s, term.value), PageNumber(page))
    ensures r.Ok? ==> forall q :: q in r.value.questions ==>
                        q in s.questions && ContainsIgnoreCase(q.question, term.value)
    ensures r.Ok? ==> QuestionIdsAscending(r.value.questions)
  {
    if Blank(term) then Abort(InternalServerError)
    else
      var matched := Matches(s, term.value);
      var view := Paginate(matched, page);
      PageKeepsIdOrder(matched, PageNumber(page));
      Ok(SearchBody(view.items, view.total))
  }

  /** A page cut from an id-ordered query is itself in id order. */
  lemma PageKeepsIdOrder(qs: seq<Question>, p: nat)
    requires p >= 1 && QuestionIdsAscending(qs)
    ensures QuestionIdsAscending(Page(qs, p))
  {
    var r, lo := Page(qs, p), (p - 1) * PerPage;
    forall i, j | 0 <= i < j < |r|
      ensures r[i].id < r[j].id
    {
      assert r[i] == qs[lo + i] && r[j] == qs[lo + j];
    }
  }

  /** POST /questions/search as its `abort(400, ...)` evidently intends. */
  function SearchQuestionsIntended(term: Option<string>, page: PageArg, s: Store): (r: Outcome<SearchBody>)
    requires Valid(s) && Supported(page)
    ensures Blank(term) ==> r == Abort(BadRequest)
    ensures !Blank(term) ==> r == SearchQuestions(term, page, s)
  {
    if Blank(term) then Abort(BadRequest) else SearchQuestions(term, page, s)
  }

  /** A missing search term gets 500 from the code as written where 400 was meant. */
  lemma MissingTermStatusSwallowed(s: Store)
    requires Valid(s)
    ensures SearchQuestions(None, Missing, s) == Abort(InternalServerError)
    ensures SearchQuestionsIntended(None, Missing, s) == Abort(BadRequest)
  {
  }

  /** For every request the search as written and the intended one answer
      differently exactly when the term is blank. */
  lemma SearchStatusDiffersOnlyWhenBlank(term: Option<string>, page: PageArg, s: Store)
    requires Valid(s) && Supported(page)
    ensures SearchQuestions(term, page, s) != SearchQuestionsIntended(term, page, s) <==> Blank(term)
  {
  }

  /** Searching for a term in upper case, lower case or as typed gives the
      same response. */
  lemma SearchIgnoresCase(term: string, page: PageArg, s: Store)
    requires Valid(s) && Supported(page)
    ensures SearchQuestions(Some(Upper(term)), page, s) == SearchQuestions(Some(term), page, s)
    ensures SearchQuestions(Some(Lower(term)), page, s) == SearchQuestions(Some(term), page, s)
  {
    forall q | q in s.questions
      ensures Holds(TextContains(Upper(term)), q) == Holds(TextContains(term), q)
      ensures Holds(TextContains(Lower(term)), q) == Holds(TextContains(term), q)
    {
      MatchIgnoresCase(q.question, term);
    }
    SelectAgrees(s.questions, TextContains(Upper(term)), TextContains(term));
    SelectAgrees(s.questions, TextContains(Lower(term)), TextContains(term));
  }

  /** When exactly one question matches, the search reports one result and
      returns that question on page 1. */
  lemma SingleMatchSearch(term: string, q: Question, s: Store)
    requires Valid(s) && term != ""
    requires q in s.questions && ContainsIgnoreCase(q.question, term)
    requires forall p :: p in s.questions && ContainsIgnoreCase(p.question, term) ==> p == q
    ensures SearchQuestions(Some(term), Missing, s) == Ok(SearchBody([q], 1))
  {
    SelectSingle(s.questions, TextContains(term), q);
    assert Page([q], 1) == [q];
  }

  // ------------------------------------------- DELETE /questions/<id>

  /** DELETE /questions/<id>: 404 for an unknown id, otherwise the question is
      removed and the remaining count returned. */
  function DeleteQuestion(id: nat, s: Store): (r: (Outcome<DeletedBody>, Store))
    requires Valid(s)
    ensures !HasQuestionId(s.questions, id) ==> r.0 == Abort(NotFound) && r.1 == s
    ensures HasQuestionId(s.questions, id) ==>
      && RemovedOne(s, r.1, id)
      && r.0 == Ok(DeletedBody(id, |r.1.questions|))
      && r.0.value.totalQuestions == |s.questions| - 1
  {
    match FindQuestion(s.questions, id)
    case None => (Abort(NotFound), s)
    case Some(q) =>
      var s2 := Remove(s, q.id);
      (Ok(DeletedBody(id, |s2.questions|)), s2)
  }

  /** A deleted question is gone: deleting it again answers 404 and changes nothing. */
  lemma DeleteIsFinal(id: nat, s: Store)
    requires Valid(s) && HasQuestionId(s.questions, id)
    ensures var s2 := DeleteQuestion(id, s).1;
            DeleteQuestion(id, s2) == (Abort(NotFound), s2)
  {
  }

  /** Deleting the question just created restores both tables. */
  lemma DeleteUndoesCreate(req: NewQuestion, page: PageArg, s: Store)
    requires Valid(s) && Supported(page)
    requires !Blank(req.question) && !Blank(req.answer)
    ensures var (created, s1) := CreateQuestion(req, page, s);
            var (deleted, s2) := DeleteQuestion(created.value.created, s1);
            && deleted == Ok(DeletedBody(created.value.created, |s.questions|))
            && s2.questions == s.questions
            && s2.categories == s.categories
  {
    RemoveUndoesInsert(s, req.question.value, req.answer.value, req.difficulty, req.category);
  }

  // ------------------------------------ GET /categories/<id>/questions

  /** The questions of category `id`, in id order. */
  function InCategory(s: Store, id: nat): seq<Question> {
    Select(s.questions, CategoryIs(id))
  }

  /** GET /categories/<id>/questions: 404 for an unknown category, otherwise one
      page of that category's questions, their number and the category's type.
      A known category without questions still succeeds. */
  function GetCategoryQuestions(id: nat, page: PageArg, s: Store): (r: Outcome<CategoryQuestionsBody>)
    requires Valid(s) && Supported(page)
    ensures r.Abort? <==> !HasCategoryId(s.categories, id)
    ensures r.Abort? ==> r.status == NotFound
    ensures r.Ok? ==> Category(id, r.value.currentCategory) in s.categories
    ensures r.Ok? ==> r.value.totalQuestions == |InCategory(s, id)|
    ensures r.Ok? ==> r.value.questions == Page(InCategory(s, id), PageNumber(page))
    ensures r.Ok? ==> forall q :: q in r.value.questions ==> q in s.questions && q.category == Some(id)
  {
    match FindCategory(s.categories, id)
    case None => Abort(NotFound)
    case Some(c) =>
      var view := Paginate(Select(s.questions, CategoryIs(c.id)), page);
      assert forall i :: 0 <= i < |view.items| ==> view.items[i] in InCategory(s, id);
      Ok(CategoryQuestionsBody(view.items, view.total, c.kind))
  }
}
