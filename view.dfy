/** The Products listing as a stateful object: the product array handed in
    by the parent, the candidate list the search box and the sort selector
    produce, the selected sort value and the pagination record. Each method
    is one user interaction with the effects it triggers run to completion. */
module View {
  import opened Wrappers
  import opened ProductData
  import opened Search
  import opened Ordering
  import opened Sorting
  import opened Paging

  class ProductsView {
    /** snapshotByProduct, as the parent supplied it. */
    const source: seq<Product>
    /** productsToBePaginated */
    var candidates: seq<Product>
    var orderBy: string
    var pagination: Option<Pagination>

    /** Every candidate comes from the source, and the record, when there is
        one, describes the current candidate list. */
    ghost predicate WellFormed()
      reads this
    {
      && (forall p | p in source :: ValidDate(p.due))
      && multiset(candidates) <= multiset(source)
      && (pagination.Some? ==> Consistent(pagination.value, |candidates|))
    }

    /** ... and the candidates are in the order the selected key asks for. */
    ghost predicate Valid()
      reads this
    {
      && WellFormed()
      && (SortKeyOf(orderBy).Some? ==> Sorted(Comparator(SortKeyOf(orderBy).value), candidates))
    }

    /** The listing once it is mounted: the candidates are a copy of the
        source, nothing is selected, and the pagination effect has built the
        record for page 1. */
    constructor (snapshotByProduct: seq<Product>)
      requires forall p | p in snapshotByProduct :: ValidDate(p.due)
      ensures Valid()
      ensures source == snapshotByProduct && candidates == snapshotByProduct
      ensures orderBy == "" && pagination == Some(Initial(|snapshotByProduct|))
    {
      source := snapshotByProduct;
      candidates := snapshotByProduct;
      orderBy := "";
      pagination := Some(Initial(|snapshotByProduct|));
    }

    /** sortProducts: for a known key, sort a copy of the candidates and
        install it, which makes the pagination effect start again at page 1;
        for any other value, do nothing. */
    method SortProducts()
      requires WellFormed()
      modifies this`candidates, this`pagination
      ensures Valid()
      ensures candidates == SortBy(orderBy, old(candidates))
      ensures SortKeyOf(orderBy).Some? ==> pagination == Some(Initial(|candidates|))
      ensures SortKeyOf(orderBy).None? ==> pagination == old(pagination)
    {
      var key := SortKeyOf(orderBy);
      if key.None? {
        return;
      }
      var c := candidates;
      var a := new Product[|c|](i requires 0 <= i < |c| => c[i]);
      assert a[..] == c;
      SortInPlace(a, Comparator(key.value));
      candidates := a[..];
      assert candidates == SortBy(orderBy, c);
      pagination := Some(Initial(|candidates|));
    }

    /** handleInputTextChange: filter the full source afresh, sort the result
        by the selected key, and start again at page 1. */
    method SetSearchText(text: string)
      requires Valid()
      modifies this`candidates, this`pagination
      ensures Valid()
      ensures candidates == SortBy(orderBy, Filter(source, text))
      ensures pagination == Some(Initial(|candidates|))
    {
      candidates := Filter(source, text);
      pagination := Some(Initial(|candidates|));
      SortProducts();
    }

    /** handleSelectChange and the sort effect it triggers. Selecting the
        value already selected changes nothing (the state update bails out);
        any other value re-sorts, and for a known key restarts at page 1. */
    method SetOrderBy(value: string)
      requires Valid()
      modifies this
      ensures Valid()
      ensures orderBy == value
      ensures candidates == SortBy(value, old(candidates))
      ensures value == old(orderBy) ==> pagination == old(pagination)
      ensures value != old(orderBy) && SortKeyOf(value).Some? ==> pagination == Some(Initial(|candidates|))
      ensures SortKeyOf(value).None? ==> candidates == old(candidates) && pagination == old(pagination)
    {
      if value == orderBy {
        if SortKeyOf(value).Some? {
          SortedIsFixpoint(Comparator(SortKeyOf(value).value), candidates);
        }
        return;
      }
      orderBy := value;
      SortProducts();
    }

    /** The pagination control's page change; the candidates stay as they are. */
    method SetPage(page: int)
      requires Valid()
      modifies this`pagination
      ensures Valid()
      ensures candidates == old(candidates)
      ensures old(pagination).None? <==> pagination.None?
      ensures old(pagination).Some? ==>
        pagination.value.page == page && Consistent(pagination.value, |candidates|)
    {
      pagination := HandlePageChange(pagination, page, |candidates|);
    }

    /** pageProducts: the products the listing renders. */
    method VisiblePage() returns (r: seq<Product>)
      requires Valid()
      ensures r == PageOf(candidates, pagination)
      ensures |r| <= PageSize
      ensures pagination.None? ==> r == []
      ensures pagination.Some? && (pagination.value.take <= 0 || pagination.value.skip >= |candidates|) ==> r == []
      ensures pagination.Some? && pagination.value.page >= 1 ==>
        r == candidates[Min(PageSize * (pagination.value.page - 1), |candidates|)..Min(PageSize * pagination.value.page, |candidates|)]
    {
      match pagination
      case None =>
        r := [];
      case Some(p) =>
        VisiblePageBounds(candidates, p);
        if p.page >= 1 {
          VisiblePageWindow(candidates, p);
        }
        r := Splice(candidates, p.skip, p.take);
    }
  }
}
