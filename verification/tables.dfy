/** The two database tables behind the API, held in memory. The ORM queries
    the handlers issue become functions over these sequences. */
module Tables {
  import opened Text

  datatype Option<+T> = None | Some(value: T)

  /** One row of the question table; `difficulty` and `category` are nullable
      because the create handler stores whatever the request body carried. */
  datatype Question = Question(id: nat, question: string, answer: string,
                               difficulty: Option<int>, category: Option<int>)

  /** One row of the category table; `kind` is the column named `type`. */
  datatype Category = Category(id: nat, kind: string)

  /** Both tables, each in ascending primary-key order, and the next value of
      the question table's id sequence. */
  datatype Store = Store(questions: seq<Question>, categories: seq<Category>, nextId: nat)

  ghost predicate QuestionIdsAscending(qs: seq<Question>) {
    forall i, j :: 0 <= i < j < |qs| ==> qs[i].id < qs[j].id
  }

  ghost predicate CategoryIdsAscending(cs: seq<Category>) {
    forall i, j :: 0 <= i < j < |cs| ==> cs[i].id < cs[j].id
  }

  /** Primary keys are unique, every table is read in id order, and the id
      sequence is ahead of every id handed out so far. */
  ghost predicate Valid(s: Store) {
    && QuestionIdsAscending(s.questions)
    && CategoryIdsAscending(s.categories)
    && forall q :: q in s.questions ==> q.id < s.nextId
  }

  ghost predicate HasQuestionId(qs: seq<Question>, id: int) {
    exists q :: q in qs && q.id == id
  }

  ghost predicate HasCategoryId(cs: seq<Category>, id: int) {
    exists c :: c in cs && c.id == id
  }

  function CategoryIds(cs: seq<Category>): set<nat> {
    set c | c in cs :: c.id
  }

  // ---------------------------------------------------------------- lookups

  /** `Question.query.filter_by(id=...).one_or_none()`. */
  function FindQuestion(qs: seq<Question>, id: nat): (r: Option<Question>)
    ensures r.None? <==> !HasQuestionId(qs, id)
    ensures r.Some? ==> r.value in qs && r.value.id == id
  {
    if |qs| == 0 then None
    else if qs[0].id == id then Some(qs[0])
    else FindQuestion(qs[1..], id)
  }

  /** `Category.query.filter_by(id=...).one_or_none()`. */
  function FindCategory(cs: seq<Category>, id: nat): (r: Option<Category>)
    ensures r.None? <==> !HasCategoryId(cs, id)
    ensures r.Some? ==> r.value in cs && r.value.id == id
  {
    if |cs| == 0 then None
    else if cs[0].id == id then Some(cs[0])
    else FindCategory(cs[1..], id)
  }

  /** No later row of `cs` has the id of row `i`. */
  ghost predicate LastWithId(cs: seq<Category>, i: int)
    requires 0 <= i < |cs|
  {
    forall j :: i < j < |cs| ==> cs[j].id != cs[i].id
  }

  /** The dictionary `{c.id: c.type for c in cs}`: built left to right, so a
      later row overwrites an earlier one with the same id. */
  function CategoryMap(cs: seq<Category>): map<nat, string> {
    if |cs| == 0 then map[]
    else CategoryMap(cs[..|cs| - 1])[cs[|cs| - 1].id := cs[|cs| - 1].kind]
  }

  /** The dictionary has exactly the category ids as keys. */
  lemma {:induction false} CategoryMapKeys(cs: seq<Category>)
    ensures CategoryMap(cs).Keys == CategoryIds(cs)
    decreases |cs|
  {
    if |cs| > 0 {
      var init, last := cs[..|cs| - 1], cs[|cs| - 1];
      assert cs == init + [last];
      CategoryMapKeys(init);
      assert CategoryIds(cs) == CategoryIds(init) + {last.id};
    }
  }

  /** Each id maps to the type of the last row carrying that id. */
  lemma {:induction false} CategoryMapValues(cs: seq<Category>)
    ensures forall i :: 0 <= i < |cs| && LastWithId(cs, i) ==> cs[i].id in CategoryMap(cs) && CategoryMap(cs)[cs[i].id] == cs[i].kind
    decreases |cs|
  {
    if |cs| > 0 {
      var n := |cs| - 1;
      var init := cs[..n];
      CategoryMapValues(init);
      forall i | 0 <= i < n && LastWithId(cs, i)
        ensures cs[i].id in CategoryMap(cs) && CategoryMap(cs)[cs[i].id] == cs[i].kind
      {
        assert init[i] == cs[i];
        assert cs[n].id != cs[i].id;
        assert LastWithId(init, i);
      }
    }
  }

  /** With unique ids every category appears in the dictionary under its own id. */
  lemma CategoryMapOfValid(cs: seq<Category>)
    requires CategoryIdsAscending(cs)
    ensures CategoryMap(cs).Keys == CategoryIds(cs)
    ensures forall c :: c in cs ==> CategoryMap(cs)[c.id] == c.kind
  {
    CategoryMapKeys(cs);
    CategoryMapValues(cs);
    forall c | c in cs
      ensures CategoryMap(cs)[c.id] == c.kind
    {
      var i :| 0 <= i < |cs| && cs[i] == c;
      assert LastWithId(cs, i);
    }
  }

  // ---------------------------------------------------------------- filters

  /** The `WHERE` clauses the handlers use. */
  datatype Criterion =
    | CategoryIs(category: int)       // filter_by(category=...)
    | TextContains(term: string)      // question ILIKE '%term%'
    | IdNotIn(excluded: seq<int>)     // id NOT IN (...)
    | Both(left: Criterion, right: Criterion)

  predicate Holds(c: Criterion, q: Question) {
    match c
    case CategoryIs(k) => q.category == Some(k)
    case TextContains(t) => ContainsIgnoreCase(q.question, t)
    case IdNotIn(xs) => q.id !in xs
    case Both(l, r) => Holds(l, q) && Holds(r, q)
  }

  /** The rows of `qs` that satisfy `c`, in their original order. */
  function Select(qs: seq<Question>, c: Criterion): (r: seq<Question>)
    ensures forall q :: q in r <==> q in qs && Holds(c, q)
    ensures |r| <= |qs|
    ensures QuestionIdsAscending(qs) ==> QuestionIdsAscending(r)
    decreases |qs|
  {
    if |qs| == 0 then []
    else
      var rest := Select(qs[1..], c);
      if Holds(c, qs[0]) then
        assert QuestionIdsAscending(qs) ==> QuestionIdsAscending([qs[0]] + rest) by {
          if QuestionIdsAscending(qs) {
            forall q | q in rest ensures qs[0].id < q.id {
              assert q in qs[1..];
            }
          }
        }
        [qs[0]] + rest
      else rest
  }

  /** Filtering distributes over concatenation. */
  lemma {:induction false} SelectAppend(a: seq<Question>, b: seq<Question>, c: Criterion)
    ensures Select(a + b, c) == Select(a, c) + Select(b, c)
    decreases |a|
  {
    if |a| == 0 {
      assert a + b == b;
    } else {
      assert (a + b)[0] == a[0];
      assert (a + b)[1..] == a[1..] + b;
      SelectAppend(a[1..], b, c);
    }
  }

  /** Filtering keeps a sequence whole when every row satisfies the criterion. */
  lemma {:induction false} SelectKeepsAll(qs: seq<Question>, c: Criterion)
    requires forall q :: q in qs ==> Holds(c, q)
    ensures Select(qs, c) == qs
    decreases |qs|
  {
    if |qs| > 0 {
      SelectKeepsAll(qs[1..], c);
    }
  }

  /** Filtering leaves nothing when no row satisfies the criterion. */
  lemma {:induction false} SelectKeepsNone(qs: seq<Question>, c: Criterion)
    requires forall q :: q in qs ==> !Holds(c, q)
    ensures Select(qs, c) == []
    decreases |qs|
  {
    if |qs| > 0 {
      SelectKeepsNone(qs[1..], c);
    }
  }

  /** In a table with unique ids, a criterion met by exactly one row selects
      just that row. */
  lemma {:induction false} SelectSingle(qs: seq<Question>, c: Criterion, q: Question)
    requires QuestionIdsAscending(qs)
    requires q in qs && Holds(c, q)
    requires forall p :: p in qs && Holds(c, p) ==> p == q
    ensures Select(qs, c) == [q]
    decreases |qs|
  {
    var rest := qs[1..];
    if qs[0] == q {
      HeadIdUnique(qs);
      SelectKeepsNone(rest, c);
    } else {
      assert q in rest;
      SelectSingle(rest, c, q);
    }
  }

  /** Two criteria that agree on every row select the same rows. */
  lemma {:induction false} SelectAgrees(qs: seq<Question>, c1: Criterion, c2: Criterion)
    requires forall q :: q in qs ==> Holds(c1, q) == Holds(c2, q)
    ensures Select(qs, c1) == Select(qs, c2)
    decreases |qs|
  {
    if |qs| > 0 {
      SelectAgrees(qs[1..], c1, c2);
    }
  }

  /** A criterion that admits fewer rows selects no more of them, and strictly
      fewer when some row of `qs` is admitted by `wide` but not by `narrow`. */
  lemma {:induction false} SelectNarrower(qs: seq<Question>, wide: Criterion, narrow: Criterion)
    requires forall q :: q in qs && Holds(narrow, q) ==> Holds(wide, q)
    ensures |Select(qs, narrow)| <= |Select(qs, wide)|
    ensures (exists x :: x in qs && Holds(wide, x) && !Holds(narrow, x)) ==>
              |Select(qs, narrow)| < |Select(qs, wide)|
    decreases |qs|
  {
    if |qs| > 0 {
      SelectNarrower(qs[1..], wide, narrow);
      if exists x :: x in qs && Holds(wide, x) && !Holds(narrow, x) {
        var x :| x in qs && Holds(wide, x) && !Holds(narrow, x);
        if x != qs[0] {
          assert x in qs[1..];
        }
      }
    }
  }

  /** In a table with unique ids the first row's id occurs nowhere else. */
  lemma HeadIdUnique(qs: seq<Question>)
    requires |qs| > 0 && QuestionIdsAscending(qs)
    ensures !HasQuestionId(qs[1..], qs[0].id)
  {
    forall q | q in qs[1..] ensures q.id != qs[0].id {
      var j :| 0 <= j < |qs[1..]| && qs[1..][j] == q;
      assert qs[j + 1] == q;
    }
  }

  /** In a table with unique ids, excluding one present id drops exactly one row,
      and excluding an absent id drops none. */
  lemma {:induction false} SelectDropsOneId(qs: seq<Question>, id: int)
    requires QuestionIdsAscending(qs)
    ensures HasQuestionId(qs, id) ==> |Select(qs, IdNotIn([id]))| == |qs| - 1
    ensures !HasQuestionId(qs, id) ==> Select(qs, IdNotIn([id])) == qs
    decreases |qs|
  {
    if |qs| > 0 {
      var rest := qs[1..];
      assert QuestionIdsAscending(rest);
      SelectDropsOneId(rest, id);
      var sel := Select(rest, IdNotIn([id]));
      if qs[0].id == id {
        HeadIdUnique(qs);
        assert Select(qs, IdNotIn([id])) == sel;
      } else {
        assert Select(qs, IdNotIn([id])) == [qs[0]] + sel;
        assert HasQuestionId(qs, id) ==> HasQuestionId(rest, id) by {
          if HasQuestionId(qs, id) {
            var q :| q in qs && q.id == id;
            assert q in rest;
          }
        }
        assert !HasQuestionId(qs, id) ==> !HasQuestionId(rest, id) by {
          forall q | q in rest ensures q in qs { }
        }
        assert qs == [qs[0]] + rest;
      }
    }
  }

  // ---------------------------------------------------------------- writes

  /** `s2` is `s` with the single question `q` appended under a fresh id. */
  ghost predicate AppendedOne(s: Store, s2: Store, q: Question) {
    && Valid(s2)
    && s2.categories == s.categories
    && |s2.questions| == |s.questions| + 1
    && s2.questions[..|s.questions|] == s.questions
    && s2.questions[|s.questions|] == q
    && !HasQuestionId(s.questions, q.id)
  }

  /** `s2` is `s` with the question whose id is `id` removed and nothing else
      changed. */
  ghost predicate RemovedOne(s: Store, s2: Store, id: nat) {
    && Valid(s2)
    && s2.categories == s.categories
    && s2.nextId == s.nextId
    && (forall q :: q in s2.questions <==> q in s.questions && q.id != id)
    && |s2.questions| == |s.questions| - 1
  }

  /** `Question(...).insert()`: the row takes the next id of the sequence. */
  function Insert(s: Store, question: string, answer: string,
                  difficulty: Option<int>, category: Option<int>): (r: (Store, Question))
    requires Valid(s)
    ensures AppendedOne(s, r.0, r.1)
    ensures r.1 == Question(r.1.id, question, answer, difficulty, category)
  {
    var q := Question(s.nextId, question, answer, difficulty, category);
    var s2 := Store(s.questions + [q], s.categories, s.nextId + 1);
    assert s2.questions[..|s.questions|] == s.questions;
    (s2, q)
  }

  /** `question.delete()` for the question whose id is `id`. */
  function Remove(s: Store, id: nat): (r: Store)
    requires Valid(s)
    requires HasQuestionId(s.questions, id)
    ensures RemovedOne(s, r, id)
  {
    SelectDropsOneId(s.questions, id);
    Store(Select(s.questions, IdNotIn([id])), s.categories, s.nextId)
  }

  /** Removing the row just inserted gives back the original tables. */
  lemma RemoveUndoesInsert(s: Store, question: string, answer: string,
                           difficulty: Option<int>, category: Option<int>)
    requires Valid(s)
    ensures var (s1, q) := Insert(s, question, answer, difficulty, category);
            HasQuestionId(s1.questions, q.id)
            && Remove(s1, q.id).questions == s.questions
            && Remove(s1, q.id).categories == s.categories
  {
    var (s1, q) := Insert(s, question, answer, difficulty, category);
    assert s1.questions == s.questions + [q];
    assert q in s1.questions;
    SelectAppend(s.questions, [q], IdNotIn([q.id]));
    SelectKeepsAll(s.questions, IdNotIn([q.id]));
  }
}
