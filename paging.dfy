/** The pagination record of the listing and the page it selects: the record
    is rebuilt for page 1 whenever the candidate list is replaced, a page
    change recomputes skip and take, and the visible page is
    `Array.prototype.splice(skip, take)` on a copy of the candidates. */
module Paging {
  import opened Wrappers

  /** The record handed to the pagination control. */
  datatype Pagination = Pagination(page: int, size: int, take: int, skip: int, total: int)

  /** The number of products on one page. */
  const PageSize: int := 5

  function Min(a: int, b: int): int { if a <= b then a else b }

  function Max(a: int, b: int): int { if a >= b then a else b }

  /** What a record computed for a candidate list of `length` products
      holds: the fixed page size, the list's length as total, and skip and
      take derived from the page number. */
  predicate Consistent(p: Pagination, length: int) {
    && p.size == PageSize
    && p.total == length
    && p.skip == p.size * (p.page - 1)
    && p.take == Min(p.size, length - p.skip)
  }

  /** The record the pagination effect builds for a new candidate list. */
  function Initial(length: nat): (p: Pagination)
    ensures Consistent(p, length) && p.page == 1
    ensures p.skip == 0 && 0 <= p.take <= p.size && p.take <= p.total
  {
    Pagination(page := 1, size := 5, take := if length >= 5 then 5 else length, total := length, skip := 0)
  }

  /** handlePageChange: copy the record, then set page, skip and take one
      field at a time; an absent record stays absent. */
  method HandlePageChange(state: Option<Pagination>, page: int, length: int) returns (r: Option<Pagination>)
    ensures state.None? <==> r.None?
    ensures state.Some? ==>
      && r.value.page == page
      && r.value.size == state.value.size
      && r.value.total == state.value.total
      && r.value.skip == state.value.size * (page - 1)
      && r.value.take == Min(r.value.size, length - r.value.skip)
    ensures state.Some? && Consistent(state.value, length) ==> Consistent(r.value, length)
    ensures state.Some? ==> r.value.take <= r.value.size
    ensures state.Some? && page >= 1 && state.value.size >= 0 ==> r.value.skip >= 0
    ensures state.Some? && r.value.skip <= length && state.value.size >= 0 ==>
      0 <= r.value.take && r.value.skip + r.value.take <= length
  {
    if state.None? {
      return None;
    }
    var p := state.value;
    p := p.(page := page);
    p := p.(skip := p.size * (page - 1));
    p := p.(take := length - p.skip);
    if p.take > p.size {
      p := p.(take := p.size);
    }
    if page >= 1 && p.size >= 0 {
      assert p.size * (page - 1) >= 0;
    }
    return Some(p);
  }

  /** The position where `splice(start, ...)` starts on a list of `length`
      elements: a negative start counts from the end (section 22.1.3.28 of
      ECMA-262, 2019 edition). */
  function SpliceStart(length: nat, start: int): (from: int)
    ensures 0 <= from <= length
    ensures 0 <= start ==> from == Min(start, length)
  {
    if start < 0 then Max(length + start, 0) else Min(start, length)
  }

  /** How many elements `splice(start, deleteCount)` removes: the count is
      clamped to zero below and to what is left of the list above. */
  function SpliceCount(length: nat, start: int, deleteCount: int): (n: int)
    ensures 0 <= n <= Max(deleteCount, 0)
    ensures SpliceStart(length, start) + n <= length
    ensures n == Min(Max(deleteCount, 0), length - SpliceStart(length, start))
  {
    var from := SpliceStart(length, start);
    if deleteCount <= 0 then 0 else Min(deleteCount, length - from)
  }

  /** `splice(start, deleteCount)` on a copy of a: the removed elements, taken
      one at a time as section 22.1.3.28 of ECMA-262 does. */
  method Splice<T>(a: seq<T>, start: int, deleteCount: int) returns (removed: seq<T>)
    ensures removed == a[SpliceStart(|a|, start)..SpliceStart(|a|, start) + SpliceCount(|a|, start, deleteCount)]
    ensures |removed| <= Max(deleteCount, 0)
    ensures deleteCount <= 0 || start >= |a| ==> removed == []
    ensures 0 <= start <= |a| && 0 <= deleteCount ==> removed == a[start..Min(start + deleteCount, |a|)]
  {
    var from := SpliceStart(|a|, start);
    var count := SpliceCount(|a|, start, deleteCount);
    removed := [];
    var k := 0;
    while k < count
      invariant 0 <= k <= count
      invariant removed == a[from..from + k]
    {
      removed := removed + [a[from + k]];
      k := k + 1;
    }
  }

  /** pageProducts: the products on the current page, none while there is
      no pagination record. */
  function PageOf<T>(candidates: seq<T>, pagination: Option<Pagination>): (r: seq<T>)
    ensures pagination.None? ==> r == []
    ensures pagination.Some? ==> |r| <= Max(pagination.value.take, 0)
    ensures pagination.Some? && 0 <= pagination.value.skip <= |candidates| && 0 <= pagination.value.take ==>
      r == candidates[pagination.value.skip..Min(pagination.value.skip + pagination.value.take, |candidates|)]
  {
    match pagination
    case None => []
    case Some(p) =>
      var from := SpliceStart(|candidates|, p.skip);
      candidates[from..from + SpliceCount(|candidates|, p.skip, p.take)]
  }

  /** The visible page never holds more than a page, and is empty when take
      is not positive or skip is past the end. */
  lemma VisiblePageBounds<T>(candidates: seq<T>, p: Pagination)
    requires Consistent(p, |candidates|)
    ensures |PageOf(candidates, Some(p))| <= p.size
    ensures p.take <= 0 ==> PageOf(candidates, Some(p)) == []
    ensures p.skip >= |candidates| ==> PageOf(candidates, Some(p)) == []
  {
  }

  /** Page k (k >= 1) shows the products at positions 5(k-1) up to 5k - 1,
      clipped to the list. */
  lemma VisiblePageWindow<T>(candidates: seq<T>, p: Pagination)
    requires Consistent(p, |candidates|) && p.page >= 1
    ensures PageOf(candidates, Some(p))
         == candidates[Min(PageSize * (p.page - 1), |candidates|)..Min(PageSize * p.page, |candidates|)]
  {
    var n := |candidates|;
    assert p.skip == 5 * p.page - 5 >= 0;
    if p.skip <= n {
      assert p.skip + p.take == Min(5 * p.page, n);
    }
  }

  /** With seven products, page 2 skips five and takes the last two. */
  lemma SevenProductsSecondPage<T>(candidates: seq<T>, p: Pagination)
    requires |candidates| == 7 && Consistent(p, 7) && p.page == 2
    ensures p.skip == 5 && p.take == 2
    ensures PageOf(candidates, Some(p)) == candidates[5..7]
  {
  }
}
