# Trivia API request handlers, modelled in Dafny

This project models the request handlers of a small trivia-question web API
(`backend/flaskr/__init__.py`). The API lists categories. It lists, searches
and paginates questions, creates and deletes questions, and serves a quiz
that hands out one unseen question at a time.

The database is replaced by an in-memory `Store`. It holds the question table
and the category table, each as a sequence in ascending id order, plus the next
value of the question id sequence. `Valid(s)` says the primary keys are unique
and ascending and that the id sequence is ahead of every id in use. The
database guarantees this, so every handler but POST /play assumes it (the
quiz contracts hold for any store), and the two writing handlers keep it. Each ORM query becomes a function over these sequences:
`Select` with a `Criterion` (category equality, case-insensitive substring,
id exclusion, or both), `FindQuestion`/`FindCategory` for `one_or_none`,
`Insert` and `Remove` for the row operations. A handler is a pure function from
the request's fields and the store to an `Outcome`. An `Outcome` is either `Ok`
with the response body or `Abort` with the HTTP status. The two writing
handlers also return the new store. The quiz handler is a method because its
pick is nondeterministic.

Modules: `Text` (ASCII case folding and substring search), `Http` (outcomes
and status codes), `Tables` (records, store, queries, row operations),
`Pagination` (the `page` argument and page slicing), `Handlers` (every
resource except the quiz) and `Quiz` (`get_next_question`, POST /play, and a
client's quiz session).

Three behaviours of the code that a reader of its `abort` calls might not
expect; the model follows the code:
- A blank question/answer on create and a blank search term are answered
  with 500, although the `abort(400, description=...)` calls at
  `__init__.py:85` and `:117` show 400 was meant. The `abort(400)` raises inside a `try` whose catch-all
  `except Exception` replaces it with `abort(500)` (see Findings).
- GET /questions answers 404 for any empty page, including a page past the
  end of a non-empty table. The search and category listings have no
  emptiness check, so an empty result there is a 200 with an empty list. For
  a page past the end, the ORM's `paginate` decides the outcome; the model
  takes that page to be empty (see "## Left out").
- The `page` argument is read with `request.args.get("page", 1, type=int)`:
  absent or not an integer means page 1, and any integer, even one below 1,
  is passed on unchanged to the ORM's `paginate`, which is not part of this
  model.

## Model

| member | source | states |
|---|---|---|
| Text.ContainsIffOccurs | backend/flaskr/__init__.py:119 | the substring scan answers true exactly when the term occurs at some position of the text |
| Text.ContainsIgnoreCaseMeaning | backend/flaskr/__init__.py:119 | the `ilike '%term%'` test holds exactly when, at some position, every character of the term equals the text's character after ASCII case folding |
| Text.LowerForgetsCase | backend/flaskr/__init__.py:119 | folding an upper-cased or already folded string gives the same as folding the original |
| Text.MatchIgnoresCase | backend/flaskr/__init__.py:119 | whether a question matches does not depend on the case of the term or of the question text |
| Tables.FindQuestion | backend/flaskr/__init__.py:137 | `one_or_none` by id: None exactly when no question has the id, otherwise a stored question with that id |
| Tables.FindCategory | backend/flaskr/__init__.py:156 | `one_or_none` by id: None exactly when no category has the id, otherwise a stored category with that id |
| Tables.CategoryMapKeys | backend/flaskr/__init__.py:40 | the `{id: type}` dictionary has exactly the category ids as keys |
| Tables.CategoryMapValues | backend/flaskr/__init__.py:40 | each key of the dictionary maps to the type of the last row with that id, as the left-to-right comprehension overwrites |
| Tables.CategoryMapOfValid | backend/flaskr/__init__.py:40 | with unique ids every category is in the dictionary under its id with its type |
| Tables.Select | backend/flaskr/__init__.py:178-182 | a filtered query returns exactly the rows meeting the criterion, no more rows than the table, and keeps id order |
| Tables.SelectDropsOneId | backend/flaskr/__init__.py:141-142 | excluding a present id from a table with unique ids drops exactly one row; excluding an absent id drops none |
| Tables.SelectNarrower | backend/flaskr/__init__.py:178-182 | a query admitting fewer rows returns no more rows, and strictly fewer when a row of the table is admitted only by the wider one |
| Tables.SelectSingle | backend/flaskr/__init__.py:119-120 | a criterion met by exactly one row of a table with unique ids selects just that row |
| Tables.Insert | backend/flaskr/__init__.py:87-88 | exactly one question with the given fields is appended under an id no stored question has; old questions and the categories are unchanged and the store stays valid |
| Tables.Remove | backend/flaskr/__init__.py:141 | only the question with the id is removed; every other question, the categories and the id sequence are unchanged |
| Tables.RemoveUndoesInsert | backend/flaskr/__init__.py:87-88 | removing the row just inserted, by its new id, gives back the original question and category tables |
| Pagination.PageNumber | backend/flaskr/__init__.py:14 | an integer `page` argument is used as given; an absent or non-integer one means page 1 |
| Pagination.Page | backend/flaskr/__init__.py:15 | page p holds at most 10 items, exactly those at positions `[(p-1)*10, min(p*10, n))`, and is empty exactly when `n <= (p-1)*10` |
| Pagination.PagesArePrefix | backend/flaskr/__init__.py:15 | pages 1 to k, read in order, are exactly the first `k*10` items of the query |
| Pagination.AllPagesAreTheQuery | backend/flaskr/__init__.py:15 | reading every page up to the last gives back the whole query |
| Pagination.ItemOnItsPage | backend/flaskr/__init__.py:15 | item j is on page `j/10 + 1` at position `j%10` |
| Pagination.Paginate | backend/flaskr/__init__.py:13-17 | `total` is the size of the whole query, not of the page; an absent or non-integer `page` means page 1 |
| Handlers.GetCategories | backend/flaskr/__init__.py:37-51 | 404 exactly when there are no categories; otherwise a map keyed by every category id with its type |
| Handlers.GetQuestions | backend/flaskr/__init__.py:54-73 | 404 exactly when the requested page is empty, including an out-of-range page of a non-empty table; otherwise 1 to 10 questions of that page, the total count and the full category map |
| Handlers.ListingEmptyIffNoQuestions | backend/flaskr/__init__.py:59-60 | an empty table answers 404 on every page; a non-empty one answers the default page |
| Handlers.CreateQuestion | backend/flaskr/__init__.py:75-108 | a blank question or answer inserts nothing and answers 500; otherwise exactly one question with the given fields is appended under a fresh id, the response carries its id and text, the requested page of all questions and the old count + 1 |
| Handlers.CreateQuestionIntended | backend/flaskr/__init__.py:84-85 | a blank question or answer answers 400 and leaves the store unchanged; otherwise it behaves as the handler as written |
| Handlers.BlankQuestionStatusSwallowed | backend/flaskr/__init__.py:84-108 | an empty question text gets 500 from the code as written and 400 from the intended handler; neither stores anything |
| Handlers.CreateStatusDiffersOnlyWhenBlank | backend/flaskr/__init__.py:84-108 | for every request the as-written and intended create handlers leave the same store, and their outcomes differ exactly when the question or answer is blank |
| Handlers.SearchQuestions | backend/flaskr/__init__.py:111-132 | a blank term answers 500; otherwise a page of questions whose text contains the term ignoring case, in id order, with the count of all matches |
| Handlers.PageKeepsIdOrder | backend/flaskr/__init__.py:119-120 | a page cut from an id-ordered query is in id order |
| Handlers.SearchQuestionsIntended | backend/flaskr/__init__.py:116-117 | a blank term answers 400; otherwise it behaves as the handler as written |
| Handlers.MissingTermStatusSwallowed | backend/flaskr/__init__.py:114-132 | a missing search term gets 500 from the code as written and 400 from the intended handler |
| Handlers.SearchStatusDiffersOnlyWhenBlank | backend/flaskr/__init__.py:114-132 | for every request the as-written and intended search handlers answer differently exactly when the term is missing or empty |
| Handlers.SearchIgnoresCase | backend/flaskr/__init__.py:119 | searching for the upper-cased, lower-cased or original term gives the same response |
| Handlers.SingleMatchSearch | backend/flaskr/__init__.py:119-126 | when exactly one question matches, the search reports a total of 1 and returns that question |
| Handlers.DeleteQuestion | backend/flaskr/__init__.py:135-151 | an unknown id answers 404 and leaves the store unchanged; otherwise only that question is removed, the rest is unchanged, and the response carries the id and the remaining count |
| Handlers.DeleteIsFinal | backend/flaskr/__init__.py:137-141 | after a deletion, deleting the same id again answers 404 and changes nothing |
| Handlers.DeleteUndoesCreate | backend/flaskr/__init__.py:87-148 | deleting the question just created succeeds with the original count and restores both tables |
| Handlers.GetCategoryQuestions | backend/flaskr/__init__.py:154-171 | 404 exactly when the category id is unknown; otherwise current_category is that category's type and every returned question has that category, with the count of all of them; a category without questions still succeeds |
| Quiz.Pool | backend/flaskr/__init__.py:177-182 | the candidates are exactly the questions in the category (all when the id is 0) whose id is not among the previous questions |
| Quiz.NextQuestion | backend/flaskr/__init__.py:173-187 | None exactly when the pool is empty; otherwise some pool member, so never a previous id and always in the requested category when that id is non-zero |
| Quiz.CategoryId | backend/flaskr/__init__.py:175 | an object with an id yields that id; an absent or falsy quiz_category means id 0 (all categories); only an object without an id key yields no id |
| Quiz.PlayQuiz | backend/flaskr/__init__.py:190-207 | absent previous_questions means none; a category object without id answers 500; otherwise success with None exactly when the pool is empty, or an in-scope question not previously shown |
| Quiz.PickShrinksPool | backend/flaskr/__init__.py:178-182 | adding a picked question's id to the previous questions strictly shrinks the pool |
| Quiz.FreshQuizHasQuestion | backend/flaskr/__init__.py:181-185 | with no previous questions and category 0, a non-empty table always yields a question |
| Quiz.PlaySession | backend/flaskr/__init__.py:173-187 | a client asking again and again, adding each question shown to the previous ones, reaches None; it never sees a question twice and by then has seen every question in scope |

## Left out

- Flask, Flask-RESTful and CORS wiring (app creation, `after_request` headers, route registration): framework glue. The `<int:...>` route converters are reflected only in the ids being natural numbers.
- Error handler envelopes (`success`, `error`, `message`): only the status code is modelled. Whether Flask-RESTful intercepts `abort` before the app's error handlers depends on library code that is not part of this model.
- Storage failures: the abstract store never fails. The code maps `SQLAlchemyError` per handler to 500 for the category and question listings and for delete, to 422 for create, search and the quiz, and to 400 for the category's question listing. None of these paths is modelled.
- The `ValueError` branch of create (400): what could raise it lives in `models.py`, which is not part of this model.
- Pagination.PageNumber: page numbers below 1 are excluded by `Supported`, because the ORM's `paginate` (and its `error_out` handling of pages below 1 or past the end) is not part of this model; a page past the end is modelled as an empty slice.
- SearchQuestions: matching is ASCII case folding of plain substrings; database collation, non-ASCII case folding and `%`/`_` acting as LIKE wildcards inside the term are not modelled.
- NextQuestion: `random.choice` is modelled as an arbitrary choice from the pool, not as a uniform distribution.
- `Question.format()` is not modelled: response bodies carry the question records themselves.
- JSON body parsing failures (`get_json` returning None) and fields of unexpected JSON types (a non-string question, a non-list `previous_questions`, a `quiz_category` that is not an object, a non-integer category id): not modelled.
- `print` logging: no effect on the outcome.
- `Category.query.all()` in GET /questions is unordered; since category ids are unique the dictionary built from it equals the one built in id order.
- Concurrency and transactions: owned by the database.

## Findings

| source | as written | input that shows it | evidently intended | confidence | as-written member | corrected member |
|---|---|---|---|---|---|---|
| backend/flaskr/__init__.py:84-108 | `abort(400, description=...)` for a blank question or answer is raised inside the `try` and caught by `except Exception`, which answers 500 | POST /questions with `{"question": "", "answer": "Paris"}` | 400 with the message "The question and answer fields cannot be empty." | high; not executed | Handlers.BlankQuestionStatusSwallowed | Handlers.CreateQuestionIntended |
| backend/flaskr/__init__.py:114-132 | `abort(400, description=...)` for a blank search term is caught by `except Exception`, which answers 500 | POST /questions/search with `{}` | 400 with the message "Search term cannot be empty." | high; not executed | Handlers.MissingTermStatusSwallowed | Handlers.SearchQuestionsIntended |
