# Fixed-income products listing: filter, sort, paginate

This project models the `Products` view of the fixed-income dashboard
(`desafio/src/pages/FixedIncomeFund/Products/index.tsx`). The parent view hands it an array of products. The view keeps a
candidate list, a selected sort value and a pagination record. On each user
interaction it re-derives them:

- the search box filters the **full** product array by a case-insensitive
  substring match on the product name;
- the sort selector (`name`, `valueApplied`, `dueDate`) sorts a copy of the
  candidate list with one of three comparators;
- replacing the candidate list resets the pagination record to page 1
  (`size = 5`);
- a page change recomputes `skip` and `take`;
- the visible page is `splice(skip, take)` on a copy of the candidates.

Modules (one file each):

- `Wrappers` (`wrappers.dfy`): the Option type of the pagination state.
- `ProductData` (`product.dfy`): the product record, parsed due dates, ASCII
  lower-casing and `String.prototype.includes`.
- `Search` (`search.dfy`): the search filter, as pure functions, with the
  subsequence and membership properties.
- `Ordering` (`ordering.dfy`): the three comparators and the selector
  dispatch. Each comparator is proved to be a total preorder.
- `Sorting` (`sorting.dfy`): a stable sort for any comparator. It is specified
  by a functional insertion sort, `StableSort`, and implemented in place on an
  array by `SortInPlace`. The lemmas prove it sorted, a permutation, stable and
  idempotent.
- `Paging` (`paging.dfy`): the pagination record, the page change as a
  field-by-field update, and `splice` with the clamping rules of section
  22.1.3.28 of ECMA-262 (2019 edition).
- `View` (`view.dfy`): class `ProductsView`. It holds the listing's state:
  `source`, `candidates`, `orderBy` and `pagination`. Each interaction is one
  method, and each method also runs the effects that interaction triggers.

Modelling choices:

- React's effect-driven recomputation is made explicit. When a method
  replaces the candidate list, it also rebuilds the pagination record itself,
  as the pagination effect would.
- The constructor is the state just after mount. At that point the pagination
  effect has run and the initial sort effect has done nothing.
- Selecting the value that is already selected changes nothing, because
  React skips the re-render. In particular the page is not reset. The
  candidate list would be the same after a re-sort anyway
  (`Sorting.SortedIsFixpoint`).
- Due dates are already-parsed `(year, month, day)` triples, compared in
  chronological (lexicographic) order. Applied values are integers. Names are
  compared the way JavaScript's `<` compares strings: the first differing
  character decides, and a proper prefix comes first.
- `Array.prototype.sort` has been stable since the 2019 edition of ECMA-262
  (section 22.1.3.27). With a total-preorder comparator, a stable sort has
  exactly one possible result (`Sorting.StableSortUnique`), so one insertion
  sort stands for whatever algorithm an engine uses.

Three behaviours of the code worth knowing; the model follows the code:

- `take` is not clamped at 0: a
  page past the end gives a negative `take`. The visible page is still empty,
  because `splice` treats a negative count as 0.
- Sorting does not reorder the candidates in place. It sorts a copy and
  installs the copy. Because that replaces the list, sorting
  also resets the pagination to page 1.
- Pagination is recomputed whenever a new candidate array is installed, not
  only when the total changes.

## Model

| member | source | states |
|---|---|---|
| `Search.Matches` | desafio/src/pages/FixedIncomeFund/Products/index.tsx:148-150 | The search test: a name matches only when the lower-cased text is no longer than it, and a name that starts with the text matches. `Search.Filter` keeps exactly the matching products. |
| `Search.KeepMatching` | desafio/src/pages/FixedIncomeFund/Products/index.tsx:147-151 | The filtered list is an order-preserving subsequence of its input. Every element kept matches the needle. Each product occurs as often as in the input when it matches, and not at all when it does not. |
| `Search.Filter` | desafio/src/pages/FixedIncomeFund/Products/index.tsx:142-154 | The new candidate list is a subsequence of the full source. An empty text gives exactly the source, in the same order. A product is kept if and only if it is in the source and its lower-cased name includes the lower-cased text. Occurrence counts are kept, and the result's multiset is contained in the source's. |
| `Search.EmptyNeedleKeepsAll` | desafio/src/pages/FixedIncomeFund/Products/index.tsx:146-151 | Filtering with the empty needle keeps every product. The `inputText !== ''` guard therefore does not change the result. |
| `Search.FilterIdempotent` | desafio/src/pages/FixedIncomeFund/Products/index.tsx:142-154 | Filtering the filtered list again with the same text changes nothing. |
| `Search.FilterIgnoresCase` | desafio/src/pages/FixedIncomeFund/Products/index.tsx:148-150 | Searching for a text and for its lower-cased form gives the same candidates, so the search ignores the case of the typed text. |
| `Search.TesouroExample` | desafio/src/pages/FixedIncomeFund/Products/index.tsx:147-151 | Searching "Tesouro" among "Tesouro Selic" and "CDB Banco X" keeps only "Tesouro Selic". |
| `ProductData.LowerCase` | desafio/src/pages/FixedIncomeFund/Products/index.tsx:148-150 | `toLowerCase` on ASCII letters: the result has the same length and no upper-case letter. Each upper-case letter becomes its lower-case letter, and every other character is kept. |
| `ProductData.Includes` | desafio/src/pages/FixedIncomeFund/Products/index.tsx:150 | `includes`: the text includes the needle exactly when the needle is a contiguous slice of it, which needs the needle to be no longer than the text. |
| `ProductData.LowerCaseIdempotent` | desafio/src/pages/FixedIncomeFund/Products/index.tsx:148-150 | Lower-casing an already lower-cased name or text changes nothing. |
| `ProductData.EveryTextIncludesEmpty` | desafio/src/pages/FixedIncomeFund/Products/index.tsx:150 | Every name includes the empty string. |
| `Ordering.SortKeyOf` | desafio/src/pages/FixedIncomeFund/Products/index.tsx:110-121 | A comparator is selected exactly for `name`, `valueApplied` and `dueDate`. Every other value selects none, including the initial `''`. |
| `Ordering.StringLess` | desafio/src/pages/FixedIncomeFund/Products/index.tsx:76-77 | The JavaScript string `<` between names. It is never true of equal strings. A proper prefix is less than the longer string, and no string is less than one of its own prefixes. |
| `Ordering.StringLessFirstDifference` | desafio/src/pages/FixedIncomeFund/Products/index.tsx:76-77 | `a < b` holds exactly when a is a proper prefix of b, or when the first position where they differ has the smaller character in a. |
| `Ordering.StringLessAsymmetric` | desafio/src/pages/FixedIncomeFund/Products/index.tsx:76-77 | The string order behind the name comparator never puts both `a < b` and `b < a`. |
| `Ordering.StringLessTotal` | desafio/src/pages/FixedIncomeFund/Products/index.tsx:76-77 | Of two different names, one is less than the other. |
| `Ordering.StringLessTransitive` | desafio/src/pages/FixedIncomeFund/Products/index.tsx:76-77 | The string order is transitive. |
| `Ordering.DateLess` | desafio/src/pages/FixedIncomeFund/Products/index.tsx:88-89 | `isBefore` on parsed dates. For calendar dates it holds exactly when the first date has the smaller day index, a position that grows with the date. |
| `Ordering.Compare` | desafio/src/pages/FixedIncomeFund/Products/index.tsx:74-105 | The three comparator callbacks. Each answers -1, 0 or 1. It is negative exactly when the first product comes first by name, due date or applied value, and 0 exactly when neither comes first. |
| `Ordering.CompareAntisymmetric` | desafio/src/pages/FixedIncomeFund/Products/index.tsx:74-105 | Each of the three comparators returns the negated answer when its arguments are swapped. |
| `Ordering.CompareTiesOnEqualKeys` | desafio/src/pages/FixedIncomeFund/Products/index.tsx:74-105 | Each comparator returns 0 exactly when the two products have the same name, due date or applied value, respectively. |
| `Ordering.CompareTransitive` | desafio/src/pages/FixedIncomeFund/Products/index.tsx:74-105 | For each comparator, "not after" is transitive. |
| `Ordering.ComparatorIsTotalPreorder` | desafio/src/pages/FixedIncomeFund/Products/index.tsx:74-105 | The callback handed to `products.sort` for each key is a total preorder. |
| `Sorting.StableSort` | desafio/src/pages/FixedIncomeFund/Products/index.tsx:74-105 | The result of `products.sort`: it has the input's length. Its partner lemmas prove it is a permutation, sorted and stable, and `Sorting.StableSortUnique` proves it is the only sorted list that keeps the input's ties in their order. |
| `Sorting.StableSortPermutation` | desafio/src/pages/FixedIncomeFund/Products/index.tsx:75-80 | The sorted list is a permutation of its input. |
| `Sorting.StableSortSorted` | desafio/src/pages/FixedIncomeFund/Products/index.tsx:75-80 | For a total-preorder comparator, the sorted list is non-decreasing under that comparator. |
| `Sorting.StableSortStable` | desafio/src/pages/FixedIncomeFund/Products/index.tsx:75-80 | Products that tie under the comparator keep their relative order. |
| `Sorting.SortedIsFixpoint` | desafio/src/pages/FixedIncomeFund/Products/index.tsx:75-80 | Sorting a list that is already in order returns it unchanged. |
| `Sorting.SortedTiesDetermine` | desafio/src/pages/FixedIncomeFund/Products/index.tsx:74-105 | Two lists that are sorted under the same comparator and keep the same tied elements in the same order for every element are equal. |
| `Sorting.StableSortUnique` | desafio/src/pages/FixedIncomeFund/Products/index.tsx:74-105 | Any sorted list that keeps its input's ties in their order equals `StableSort` of that input. A stable sort has only one possible result. |
| `Sorting.InsertAt` | desafio/src/pages/FixedIncomeFund/Products/index.tsx:75-80 | One insertion step, done in place on the array, leaves the prefix equal to the specification's insertion of the next element and the rest untouched. |
| `Sorting.SortInPlace` | desafio/src/pages/FixedIncomeFund/Products/index.tsx:75-80 | Sorting the array in place leaves it equal to `StableSort` of its old contents. |
| `Sorting.SortBy` | desafio/src/pages/FixedIncomeFund/Products/index.tsx:107-130 | For a known key, the result is sorted by that key's comparator, a permutation of the input, and stable for ties. For any other value, the list is returned unchanged. |
| `Sorting.SortByIdempotent` | desafio/src/pages/FixedIncomeFund/Products/index.tsx:107-130 | Applying the same sort value twice gives the same list as applying it once. |
| `Sorting.SortByUnique` | desafio/src/pages/FixedIncomeFund/Products/index.tsx:107-130 | For a known key, any sorted list with the input's ties equals `SortBy`'s result, so `SortBy`'s contract determines it. |
| `Sorting.ValueAppliedExample` | desafio/src/pages/FixedIncomeFund/Products/index.tsx:95-105 | Sorting applied values [300, 100, 200] gives [100, 200, 300]. |
| `Paging.Initial` | desafio/src/pages/FixedIncomeFund/Products/index.tsx:31-40 | The record rebuilt for a candidate list has page 1, skip 0, size 5 and total equal to the list's length. Its take is consistent with size, skip and length, with `0 <= take <= size` and `take <= total`. |
| `Paging.HandlePageChange` | desafio/src/pages/FixedIncomeFund/Products/index.tsx:53-72 | An absent record stays absent. Otherwise page is set to the requested page and skip becomes `size * (page - 1)`. Take becomes the smaller of size and `length - skip`, so `take <= size`. Size and total are unchanged, and a consistent record stays consistent. For `page >= 1`, `skip >= 0`. When `skip <= length`, `0 <= take` and `skip + take <= length`. |
| `Paging.SpliceStart` | desafio/src/pages/FixedIncomeFund/Products/index.tsx:45 | The start position of `splice` always lies in `[0, length]`. A non-negative start is clipped to the length. |
| `Paging.SpliceCount` | desafio/src/pages/FixedIncomeFund/Products/index.tsx:45 | The `splice` delete count lies between 0 and the requested count, and never runs past the end of the list. |
| `Paging.Splice` | desafio/src/pages/FixedIncomeFund/Products/index.tsx:44-47 | The removed elements are exactly the clamped slice. There are at most `max(deleteCount, 0)` of them. There are none when the count is not positive or the start is at or past the end. For an in-range start and a non-negative count, the removed elements are `a[start .. min(start + count, length)]`. |
| `Paging.PageOf` | desafio/src/pages/FixedIncomeFund/Products/index.tsx:42-51 | `pageProducts`: empty without a record. With a record, it holds at most `max(take, 0)` products. For an in-range skip and a non-negative take, it is the candidates from skip up to `skip + take`, clipped to the list. |
| `Paging.VisiblePageBounds` | desafio/src/pages/FixedIncomeFund/Products/index.tsx:42-51 | For a consistent record, the visible page holds at most one page of products. It is empty when take is not positive or skip is at or past the end. |
| `Paging.VisiblePageWindow` | desafio/src/pages/FixedIncomeFund/Products/index.tsx:42-51 | For page k >= 1, the visible page is the candidates at positions `5(k-1)` to `5k - 1`, clipped to the list. |
| `Paging.SevenProductsSecondPage` | desafio/src/pages/FixedIncomeFund/Products/index.tsx:57-68 | With seven products, page 2 has skip 5 and take 2, and shows the last two products. |
| `View.ProductsView.constructor` | desafio/src/pages/FixedIncomeFund/Products/index.tsx:23-40 | After mount, the source is the parent's array and the candidates are a copy of it. Nothing is selected, and the pagination is the page-1 record for the source. |
| `View.ProductsView.SortProducts` | desafio/src/pages/FixedIncomeFund/Products/index.tsx:107-140 | For a known key, the candidates become the stably sorted copy and the pagination is reset to page 1. For any other value, nothing changes. The candidates are then in the selected order. |
| `View.ProductsView.SetSearchText` | desafio/src/pages/FixedIncomeFund/Products/index.tsx:142-158 | The candidates become the selected sort of the filtered **full source**. They do not depend on the earlier candidates or searches. The source is a constant that is never modified. The pagination is reset to page 1. |
| `View.ProductsView.SetOrderBy` | desafio/src/pages/FixedIncomeFund/Products/index.tsx:160-162 | The selected value is recorded. The candidates become their sort by the new value. The pagination is reset to page 1 when a known key is newly selected. It is kept when the same value is reselected or an unknown value is given, and an unknown value also leaves the candidates untouched. |
| `View.ProductsView.SetPage` | desafio/src/pages/FixedIncomeFund/Products/index.tsx:53-72 | Only the pagination record changes. It stays absent if it was absent. Otherwise it becomes the consistent record for the requested page and the current candidate count. |
| `View.ProductsView.VisiblePage` | desafio/src/pages/FixedIncomeFund/Products/index.tsx:42-51 | The rendered products are the clamped `splice(skip, take)` of the candidates, with at most 5 of them. They are empty without a record, when take is not positive, or when skip is at or past the end. For page k >= 1 they are the candidates at positions `5(k-1)` to `5k - 1`. |

## Left out

- React hooks, memoisation, re-rendering and JSX are not modelled. This covers `ProductItem`, `Select`, `Input`, the `Pagination` control and the alternating row colour. Each interaction is one method call that runs the effects it triggers to completion.
- The 500 ms `debounce` on the search input is not modelled. It is timer behaviour, and its implementation is not part of this model.
- `date-fns` `parse`, `isBefore` and `isAfter` are foreign calls. Due dates arrive already parsed. The constructor requires every source date to be one a `dd/MM/yyyy` text can denote. The comparator's behaviour on malformed dates is not modelled.
- Applied values are JavaScript numbers (floating point). They are modelled as integers, for example cents.
- `ProductData.LowerCase`: lower-cases ASCII letters only, not the full Unicode case mapping of `toLowerCase`.
- `Ordering.StringLess`: compares Dafny characters, which are Unicode scalar values. JavaScript compares UTF-16 code units, so the two orders can differ for characters outside the Basic Multilingual Plane.
- `splice` also removes the returned elements from the copied array. That copy is thrown away, so only the returned elements are modelled.
- Later changes of the parent's `snapshotByProduct` prop are not modelled. In the code, the candidate state keeps its first value while the filter reads the new prop. The model's `source` is fixed at construction.
- The first render, before the pagination effect has run, is not modelled: `pagination` is then undefined. The absent-record branches are still modelled in `Paging.HandlePageChange`, `Paging.PageOf` and `View.ProductsView.VisiblePage`, but the constructor never produces an absent record.
- The sidebar components (`SideBarItem` and `SideBarSubItem`) are presentation only and are not modelled. Their one piece of state is a boolean that is flipped on click.
