/** `paginate_questions`: the `page` query argument and fixed-size pages over
    an id-ordered query. */
module Pagination {

  const PerPage: nat := 10

  /** The `page` query argument as `request.args.get("page", 1, type=int)`
      sees it: absent, present but not an integer, or an integer. */
  datatype PageArg = Missing | NotAnInteger | Number(n: int)

  /** Page numbers below 1 are handed to the ORM's own paginate, whose
      behaviour is not part of this model. */
  predicate Supported(a: PageArg) {
    a.Number? ==> a.n >= 1
  }

  /** The page number actually used: the default 1 replaces an absent or
      unconvertible argument. */
  function PageNumber(a: PageArg): (p: nat)
    requires Supported(a)
    ensures p >= 1
    ensures a.Number? ==> p == a.n
    ensures !a.Number? ==> p == 1
  {
    if a.Number? then a.n else 1
  }

  function Min(a: int, b: int): int {
    if a <= b then a else b
  }

  /** Page `p` (1-based) of `items`: the items at positions
      `[(p-1)*PerPage, min(p*PerPage, |items|))`. */
  function Page<T>(items: seq<T>, p: nat): (r: seq<T>)
    requires p >= 1
    ensures |r| <= PerPage
    ensures r == [] <==> |items| <= (p - 1) * PerPage
    ensures (p - 1) * PerPage < |items| ==> |r| == Min(p * PerPage, |items|) - (p - 1) * PerPage
    ensures forall i :: 0 <= i < |r| ==> (p - 1) * PerPage + i < |items| && r[i] == items[(p - 1) * PerPage + i]
    ensures forall x :: x in r ==> x in items
  {
    var lo := (p - 1) * PerPage;
    if lo >= |items| then [] else items[lo..Min(lo + PerPage, |items|)]
  }

  /** Pages 1 through `k`, one after the other. */
  function Pages<T>(items: seq<T>, k: nat): seq<T> {
    if k == 0 then [] else Pages(items, k - 1) + Page(items, k)
  }

  /** The first `k` pages, read in order, are exactly the first `k * PerPage`
      items: no item is skipped, repeated or moved. */
  lemma {:induction false} PagesArePrefix<T>(items: seq<T>, k: nat)
    ensures Pages(items, k) == items[..Min(k * PerPage, |items|)]
  {
    if k > 0 {
      PagesArePrefix(items, k - 1);
      var lo := (k - 1) * PerPage;
      assert k * PerPage == lo + PerPage;
      if lo < |items| {
        assert items[..Min(k * PerPage, |items|)] == items[..lo] + items[lo..Min(lo + PerPage, |items|)];
      }
    }
  }

  /** Reading every page up to and including the last gives back the whole query. */
  lemma AllPagesAreTheQuery<T>(items: seq<T>)
    ensures Pages(items, |items| / PerPage + 1) == items
  {
    PagesArePrefix(items, |items| / PerPage + 1);
  }

  /** Item `j` sits on page `j / PerPage + 1` at position `j % PerPage`. */
  lemma ItemOnItsPage<T>(items: seq<T>, j: nat)
    requires j < |items|
    ensures j % PerPage < |Page(items, j / PerPage + 1)|
    ensures Page(items, j / PerPage + 1)[j % PerPage] == items[j]
  {
  }

  /** What `paginate_questions` returns: one page of the query and the size of
      the whole query. */
  datatype PageView<T> = PageView(items: seq<T>, total: nat)

  /** `paginate_questions(request, query)`. */
  function Paginate<T>(query: seq<T>, a: PageArg): (v: PageView<T>)
    requires Supported(a)
    ensures v.total == |query|
    ensures v.items == Page(query, PageNumber(a))
    ensures !a.Number? ==> v.items == Page(query, 1)
  {
    PageView(Page(query, PageNumber(a)), |query|)
  }
}
