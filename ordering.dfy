/** The three comparators of the listing (by name, by due date, by applied
    value) and the dispatch from the selector's value to one of them. Each
    comparator answers -1, 1 or 0 as the source's callbacks do. */
module Ordering {
  import opened Wrappers
  import opened ProductData

  datatype SortKey = ByName | ByValueApplied | ByDueDate

  /** The `switch (orderBy)` of sortProducts: the three option values pick a
      comparator, anything else (the initial "" included) picks none. */
  function SortKeyOf(orderBy: string): (k: Option<SortKey>)
    ensures k.Some? <==> orderBy in {"name", "valueApplied", "dueDate"}
  {
    if orderBy == "name" then Some(ByName)
    else if orderBy == "valueApplied" then Some(ByValueApplied)
    else if orderBy == "dueDate" then Some(ByDueDate)
    else None
  }

  /** JavaScript's `a < b` on strings: the first differing character
      decides, and a proper prefix comes first. */
  function StringLess(a: string, b: string): (r: bool)
    ensures r ==> a != b
    ensures a < b ==> r
    ensures b <= a ==> !r
    decreases |a|
  {
    if b == [] then false
    else if a == [] then true
    else if a[0] != b[0] then a[0] < b[0]
    else StringLess(a[1..], b[1..])
  }

  /** The position of a date when every month is given 31 days: it grows
      with the date, so it orders dates chronologically. */
  function DayIndex(d: Date): int {
    d.year * 372 + (d.month - 1) * 31 + (d.day - 1)
  }

  /** `isBefore` on two parsed dates: chronological order of (year, month, day). */
  function DateLess(a: Date, b: Date): (r: bool)
    ensures ValidDate(a) && ValidDate(b) ==> (r <==> DayIndex(a) < DayIndex(b))
  {
    a.year < b.year
    || (a.year == b.year && a.month < b.month)
    || (a.year == b.year && a.month == b.month && a.day < b.day)
  }

  /** The comparator callback passed to `products.sort` for the given key. */
  function Compare(key: SortKey, a: Product, b: Product): (r: int)
    ensures -1 <= r <= 1
    ensures key == ByName ==>
      && (r < 0 <==> StringLess(a.name, b.name))
      && (r == 0 <==> !StringLess(a.name, b.name) && !StringLess(b.name, a.name))
    ensures key == ByDueDate ==>
      && (r < 0 <==> DateLess(a.due, b.due))
      && (r == 0 <==> !DateLess(a.due, b.due) && !DateLess(b.due, a.due))
    ensures key == ByValueApplied ==>
      && (r < 0 <==> a.valueApplied < b.valueApplied)
      && (r == 0 <==> a.valueApplied == b.valueApplied)
  {
    match key
    case ByName =>
      if StringLess(a.name, b.name) then -1 else if StringLess(b.name, a.name) then 1 else 0
    case ByDueDate =>
      if DateLess(a.due, b.due) then -1 else if DateLess(b.due, a.due) then 1 else 0
    case ByValueApplied =>
      if a.valueApplied < b.valueApplied then -1 else if a.valueApplied > b.valueApplied then 1 else 0
  }

  /** The string order is the order of the first differing character, with
      a proper prefix first. */
  lemma {:induction false} StringLessFirstDifference(a: string, b: string)
    ensures StringLess(a, b) <==>
      a < b || exists k :: 0 <= k < |a| && k < |b| && a[..k] == b[..k] && a[k] < b[k]
    decreases |a|
  {
    if a != [] && b != [] {
      if a[0] == b[0] {
        var a', b' := a[1..], b[1..];
        StringLessFirstDifference(a', b');
        assert a == [a[0]] + a' && b == [b[0]] + b';
        assert a < b <==> a' < b';
        if exists k :: 0 <= k < |a'| && k < |b'| && a'[..k] == b'[..k] && a'[k] < b'[k] {
          var k :| 0 <= k < |a'| && k < |b'| && a'[..k] == b'[..k] && a'[k] < b'[k];
          assert a[..k + 1] == [a[0]] + a'[..k] && b[..k + 1] == [b[0]] + b'[..k];
          assert a[k + 1] == a'[k] && b[k + 1] == b'[k];
        }
        if exists k :: 0 <= k < |a| && k < |b| && a[..k] == b[..k] && a[k] < b[k] {
          var k :| 0 <= k < |a| && k < |b| && a[..k] == b[..k] && a[k] < b[k];
          assert k != 0;
          assert a'[..k - 1] == a[1..k] && b'[..k - 1] == b[1..k];
          assert a'[k - 1] == a[k] && b'[k - 1] == b[k];
        }
      } else {
        assert a[..0] == b[..0];
        forall k | 0 < k < |a| && k < |b| ensures a[..k] != b[..k] {
          assert a[..k][0] == a[0] && b[..k][0] == b[0];
        }
      }
    }
  }

  lemma {:induction false} StringLessAsymmetric(a: string, b: string)
    ensures !(StringLess(a, b) && StringLess(b, a))
    decreases |a|
  {
    if a != [] && b != [] && a[0] == b[0] {
      StringLessAsymmetric(a[1..], b[1..]);
    }
  }

  lemma {:induction false} StringLessTotal(a: string, b: string)
    ensures a != b ==> StringLess(a, b) || StringLess(b, a)
    decreases |a|
  {
    if a != [] && b != [] && a[0] == b[0] {
      StringLessTotal(a[1..], b[1..]);
      assert a == [a[0]] + a[1..] && b == [b[0]] + b[1..];
    }
  }

  lemma {:induction false} StringLessTransitive(a: string, b: string, c: string)
    requires StringLess(a, b) && StringLess(b, c)
    ensures StringLess(a, c)
    decreases |a|
  {
    if a != [] && a[0] == b[0] && b[0] == c[0] {
      StringLessTransitive(a[1..], b[1..], c[1..]);
    }
  }

  /** Swapping the arguments negates the comparator's answer. */
  lemma CompareAntisymmetric(key: SortKey, a: Product, b: Product)
    ensures Compare(key, a, b) == -Compare(key, b, a)
  {
    if key == ByName {
      StringLessAsymmetric(a.name, b.name);
    }
  }

  /** The comparator ties two products exactly when their keys are equal. */
  lemma CompareTiesOnEqualKeys(key: SortKey, a: Product, b: Product)
    ensures key == ByName ==> (Compare(key, a, b) == 0 <==> a.name == b.name)
    ensures key == ByDueDate ==> (Compare(key, a, b) == 0 <==> a.due == b.due)
    ensures key == ByValueApplied ==> (Compare(key, a, b) == 0 <==> a.valueApplied == b.valueApplied)
  {
    if key == ByName {
      StringLessTotal(a.name, b.name);
      if a.name == b.name {
        StringLessAsymmetric(a.name, a.name);
      }
    }
  }

  /** "Not after" is transitive, so the comparator is a total preorder. */
  lemma CompareTransitive(key: SortKey, a: Product, b: Product, c: Product)
    requires Compare(key, a, b) <= 0 && Compare(key, b, c) <= 0
    ensures Compare(key, a, c) <= 0
  {
    if key == ByName {
      StringLessAsymmetric(a.name, b.name);
      StringLessAsymmetric(b.name, c.name);
      StringLessAsymmetric(a.name, c.name);
      StringLessTotal(a.name, b.name);
      StringLessTotal(b.name, c.name);
      if StringLess(a.name, b.name) && StringLess(b.name, c.name) {
        StringLessTransitive(a.name, b.name, c.name);
      }
    }
  }

  /** A comparator that orders its type totally, up to ties: swapping the
      arguments negates the answer, and "not after" is transitive. */
  ghost predicate TotalPreorder<T(!new)>(cmp: (T, T) -> int) {
    && (forall a, b :: cmp(a, b) == -cmp(b, a))
    && (forall a, b, c :: cmp(a, b) <= 0 && cmp(b, c) <= 0 ==> cmp(a, c) <= 0)
  }

  /** The callback handed to `products.sort` for the given key. */
  function Comparator(key: SortKey): (Product, Product) -> int {
    (a, b) => Compare(key, a, b)
  }

  lemma ComparatorIsTotalPreorder(key: SortKey)
    ensures TotalPreorder(Comparator(key))
  {
    forall a, b ensures Comparator(key)(a, b) == -Comparator(key)(b, a) {
      CompareAntisymmetric(key, a, b);
    }
    forall a, b, c | Comparator(key)(a, b) <= 0 && Comparator(key)(b, c) <= 0
      ensures Comparator(key)(a, c) <= 0
    {
      CompareTransitive(key, a, b, c);
    }
  }

  /** Two elements that tie with the same element tie with each other. */
  lemma TieWithSameIsTie<T(!new)>(cmp: (T, T) -> int, a: T, b: T, p: T)
    requires TotalPreorder(cmp) && cmp(a, p) == 0 && cmp(b, p) == 0
    ensures cmp(a, b) == 0
  {
    assert cmp(p, b) == 0 && cmp(p, a) == 0;
    assert cmp(a, b) <= 0 && cmp(b, a) <= 0;
  }
}
