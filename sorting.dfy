/** `Array.prototype.sort` with one of the listing's comparators. The sort is
    stable (section 22.1.3.27 of ECMA-262, 2019 edition, requires it), so its
    result is determined: StableSort, an insertion sort, is that result. The
    sort is written for any comparator; SortBy instantiates it with the one
    the selector picks. */
module Sorting {
  import opened Wrappers
  import opened ProductData
  import opened Ordering

  /** No element comes after a later one under the comparator. */
  predicate Sorted<T>(cmp: (T, T) -> int, s: seq<T>) {
    forall i, j :: 0 <= i < j < |s| ==> cmp(s[i], s[j]) <= 0
  }

  /** Puts x into t just after the last element that does not come after it. */
  function InsertLast<T>(cmp: (T, T) -> int, t: seq<T>, x: T): (r: seq<T>)
    ensures |r| == |t| + 1
    decreases |t|
  {
    if t == [] || cmp(t[|t| - 1], x) <= 0 then t + [x]
    else InsertLast(cmp, t[..|t| - 1], x) + [t[|t| - 1]]
  }

  /** The stable sort of s: each element in turn is inserted after the
      sorted elements that do not come after it. */
  function StableSort<T>(cmp: (T, T) -> int, s: seq<T>): (r: seq<T>)
    ensures |r| == |s|
    decreases |s|
  {
    if s == [] then [] else InsertLast(cmp, StableSort(cmp, s[..|s| - 1]), s[|s| - 1])
  }

  /** The elements of s that tie with p, in their order in s. */
  function TiesWith<T>(cmp: (T, T) -> int, s: seq<T>, p: T): seq<T>
    decreases |s|
  {
    if s == [] then []
    else TiesWith(cmp, s[..|s| - 1], p) + (if cmp(s[|s| - 1], p) == 0 then [s[|s| - 1]] else [])
  }

  lemma {:induction false} InsertLastPermutation<T>(cmp: (T, T) -> int, t: seq<T>, x: T)
    ensures multiset(InsertLast(cmp, t, x)) == multiset(t) + multiset{x}
    decreases |t|
  {
    if !(t == [] || cmp(t[|t| - 1], x) <= 0) {
      InsertLastPermutation(cmp, t[..|t| - 1], x);
      assert t == t[..|t| - 1] + [t[|t| - 1]];
    }
  }

  /** Appending an element that comes after none of t keeps t in order. */
  lemma AppendSorted<T>(cmp: (T, T) -> int, t: seq<T>, x: T)
    requires Sorted(cmp, t)
    requires forall k :: 0 <= k < |t| ==> cmp(t[k], x) <= 0
    ensures Sorted(cmp, t + [x])
  {
    var r := t + [x];
    forall i, j | 0 <= i < j < |r| ensures cmp(r[i], r[j]) <= 0 {
      if j < |t| {
        assert r[i] == t[i] && r[j] == t[j];
      }
    }
  }

  lemma {:induction false} InsertLastSorted<T(!new)>(cmp: (T, T) -> int, t: seq<T>, x: T)
    requires TotalPreorder(cmp) && Sorted(cmp, t)
    ensures Sorted(cmp, InsertLast(cmp, t, x))
    decreases |t|
  {
    if t == [] {
    } else if cmp(t[|t| - 1], x) <= 0 {
      forall k | 0 <= k < |t| ensures cmp(t[k], x) <= 0 {
        if k < |t| - 1 {
          assert cmp(t[k], t[|t| - 1]) <= 0;
        }
      }
      AppendSorted(cmp, t, x);
    } else {
      var t', l := t[..|t| - 1], t[|t| - 1];
      var r' := InsertLast(cmp, t', x);
      assert Sorted(cmp, t');
      InsertLastSorted(cmp, t', x);
      InsertLastPermutation(cmp, t', x);
      forall k | 0 <= k < |r'| ensures cmp(r'[k], l) <= 0 {
        assert r'[k] in multiset(t') + multiset{x};
        if r'[k] != x {
          var m :| 0 <= m < |t'| && t'[m] == r'[k];
          assert cmp(t[m], t[|t| - 1]) <= 0;
        }
      }
      AppendSorted(cmp, r', l);
    }
  }

  lemma TiesWithSnoc<T>(cmp: (T, T) -> int, u: seq<T>, y: T, p: T)
    ensures TiesWith(cmp, u + [y], p) == TiesWith(cmp, u, p) + (if cmp(y, p) == 0 then [y] else [])
  {
    assert (u + [y])[..|u|] == u;
  }

  lemma {:induction false} InsertLastTies<T(!new)>(cmp: (T, T) -> int, t: seq<T>, x: T, p: T)
    requires TotalPreorder(cmp)
    ensures TiesWith(cmp, InsertLast(cmp, t, x), p)
         == TiesWith(cmp, t, p) + (if cmp(x, p) == 0 then [x] else [])
    decreases |t|
  {
    if t == [] || cmp(t[|t| - 1], x) <= 0 {
      TiesWithSnoc(cmp, t, x, p);
    } else {
      var t', l := t[..|t| - 1], t[|t| - 1];
      assert t == t' + [l];
      InsertLastTies(cmp, t', x, p);
      TiesWithSnoc(cmp, InsertLast(cmp, t', x), l, p);
      TiesWithSnoc(cmp, t', l, p);
      // l comes strictly after x, so they cannot both tie with p
      if cmp(x, p) == 0 && cmp(l, p) == 0 {
        TieWithSameIsTie(cmp, l, x, p);
      }
    }
  }

  lemma {:induction false} StableSortPermutation<T>(cmp: (T, T) -> int, s: seq<T>)
    ensures multiset(StableSort(cmp, s)) == multiset(s)
    decreases |s|
  {
    if s != [] {
      StableSortPermutation(cmp, s[..|s| - 1]);
      InsertLastPermutation(cmp, StableSort(cmp, s[..|s| - 1]), s[|s| - 1]);
      assert s == s[..|s| - 1] + [s[|s| - 1]];
    }
  }

  lemma {:induction false} StableSortSorted<T(!new)>(cmp: (T, T) -> int, s: seq<T>)
    requires TotalPreorder(cmp)
    ensures Sorted(cmp, StableSort(cmp, s))
    decreases |s|
  {
    if s != [] {
      StableSortSorted(cmp, s[..|s| - 1]);
      InsertLastSorted(cmp, StableSort(cmp, s[..|s| - 1]), s[|s| - 1]);
    }
  }

  /** Elements that tie keep their relative order. */
  lemma {:induction false} StableSortStable<T(!new)>(cmp: (T, T) -> int, s: seq<T>)
    requires TotalPreorder(cmp)
    ensures forall p :: TiesWith(cmp, StableSort(cmp, s), p) == TiesWith(cmp, s, p)
    decreases |s|
  {
    if s != [] {
      StableSortStable(cmp, s[..|s| - 1]);
      forall p ensures TiesWith(cmp, StableSort(cmp, s), p) == TiesWith(cmp, s, p) {
        InsertLastTies(cmp, StableSort(cmp, s[..|s| - 1]), s[|s| - 1], p);
      }
    }
  }

  /** A list that is already in order is left as it is. */
  lemma {:induction false} SortedIsFixpoint<T>(cmp: (T, T) -> int, s: seq<T>)
    requires Sorted(cmp, s)
    ensures StableSort(cmp, s) == s
    decreases |s|
  {
    if s != [] {
      var s' := s[..|s| - 1];
      assert Sorted(cmp, s');
      SortedIsFixpoint(cmp, s');
      assert InsertLast(cmp, s', s[|s| - 1]) == s' + [s[|s| - 1]];
      assert s == s' + [s[|s| - 1]];
    }
  }

  /** Every element of TiesWith(cmp, s, p) is an element of s that ties with p. */
  lemma {:induction false} TiesWithMembers<T>(cmp: (T, T) -> int, s: seq<T>, p: T)
    ensures forall z :: z in TiesWith(cmp, s, p) ==> z in s && cmp(z, p) == 0
    decreases |s|
  {
    if s != [] {
      TiesWithMembers(cmp, s[..|s| - 1], p);
      assert s == s[..|s| - 1] + [s[|s| - 1]];
    }
  }

  /** The last element of s ends the list of elements that tie with it. */
  lemma TiesWithLast<T(!new)>(cmp: (T, T) -> int, s: seq<T>)
    requires TotalPreorder(cmp) && s != []
    ensures TiesWith(cmp, s, s[|s| - 1]) == TiesWith(cmp, s[..|s| - 1], s[|s| - 1]) + [s[|s| - 1]]
  {
    assert cmp(s[|s| - 1], s[|s| - 1]) == -cmp(s[|s| - 1], s[|s| - 1]);
  }

  /** In a sorted list, every element comes no later than the last one. */
  lemma NoLaterThanLast<T(!new)>(cmp: (T, T) -> int, s: seq<T>, x: T)
    requires TotalPreorder(cmp) && Sorted(cmp, s) && x in s
    ensures cmp(x, s[|s| - 1]) <= 0
  {
    var k :| 0 <= k < |s| && s[k] == x;
    if k == |s| - 1 {
      assert cmp(x, x) == -cmp(x, x);
    }
  }

  /** When the last elements of r and u tie, and r and u have the same ties
      with r's last element, the two last elements are the same. */
  lemma TiedLastsAreEqual<T(!new)>(cmp: (T, T) -> int, r: seq<T>, u: seq<T>)
    requires TotalPreorder(cmp) && r != [] && u != []
    requires cmp(u[|u| - 1], r[|r| - 1]) == 0
    requires TiesWith(cmp, r, r[|r| - 1]) == TiesWith(cmp, u, r[|r| - 1])
    ensures r[|r| - 1] == u[|u| - 1]
  {
    TiesWithLast(cmp, r);
    assert TiesWith(cmp, u, r[|r| - 1]) == TiesWith(cmp, u[..|u| - 1], r[|r| - 1]) + [u[|u| - 1]];
  }

  /** Two sorted lists with the same ties end with the same element. */
  lemma SameLast<T(!new)>(cmp: (T, T) -> int, r: seq<T>, u: seq<T>)
    requires TotalPreorder(cmp) && Sorted(cmp, r) && Sorted(cmp, u) && r != [] && u != []
    requires TiesWith(cmp, r, r[|r| - 1]) == TiesWith(cmp, u, r[|r| - 1])
    requires TiesWith(cmp, r, u[|u| - 1]) == TiesWith(cmp, u, u[|u| - 1])
    ensures r[|r| - 1] == u[|u| - 1]
  {
    var x, y := r[|r| - 1], u[|u| - 1];
    TiesWithLast(cmp, r);
    TiesWithLast(cmp, u);
    TiesWithMembers(cmp, u, x);
    TiesWithMembers(cmp, r, y);
    NoLaterThanLast(cmp, u, x);
    NoLaterThanLast(cmp, r, y);
    TiedLastsAreEqual(cmp, r, u);
  }

  /** Dropping the same last element keeps the ties equal. */
  lemma SameTiesOfPrefixes<T>(cmp: (T, T) -> int, r: seq<T>, u: seq<T>, p: T)
    requires r != [] && u != [] && r[|r| - 1] == u[|u| - 1]
    requires TiesWith(cmp, r, p) == TiesWith(cmp, u, p)
    ensures TiesWith(cmp, r[..|r| - 1], p) == TiesWith(cmp, u[..|u| - 1], p)
  {
    var x := r[|r| - 1];
    var c := if cmp(x, p) == 0 then [x] else [];
    var a, b := TiesWith(cmp, r[..|r| - 1], p), TiesWith(cmp, u[..|u| - 1], p);
    assert a + c == b + c;
    assert a == (a + c)[..|a|] && b == (b + c)[..|b|];
  }

  /** A list that ties with nothing is empty. */
  lemma NoTiesIsEmpty<T(!new)>(cmp: (T, T) -> int, u: seq<T>)
    requires TotalPreorder(cmp) && u != []
    ensures TiesWith(cmp, u, u[|u| - 1]) != []
  {
    TiesWithLast(cmp, u);
  }

  /** Dropping the last element keeps a list sorted. */
  lemma SortedPrefix<T>(cmp: (T, T) -> int, s: seq<T>)
    requires Sorted(cmp, s) && s != []
    ensures Sorted(cmp, s[..|s| - 1])
  {
    var s' := s[..|s| - 1];
    forall i, j | 0 <= i < j < |s'| ensures cmp(s'[i], s'[j]) <= 0 {
      assert s'[i] == s[i] && s'[j] == s[j];
    }
  }

  /** Two sorted lists with the same ties, key by key, are the same list. */
  lemma {:induction false} SortedTiesDetermine<T(!new)>(cmp: (T, T) -> int, r: seq<T>, u: seq<T>)
    requires TotalPreorder(cmp) && Sorted(cmp, r) && Sorted(cmp, u)
    requires forall p :: TiesWith(cmp, r, p) == TiesWith(cmp, u, p)
    ensures r == u
    decreases |r|
  {
    if u != [] {
      NoTiesIsEmpty(cmp, u);
      assert TiesWith(cmp, r, u[|u| - 1]) != [];
    }
    if r != [] {
      NoTiesIsEmpty(cmp, r);
      assert TiesWith(cmp, r, r[|r| - 1]) == TiesWith(cmp, u, r[|r| - 1]);
      assert TiesWith(cmp, r, u[|u| - 1]) == TiesWith(cmp, u, u[|u| - 1]);
      SameLast(cmp, r, u);
      var r', u' := r[..|r| - 1], u[..|u| - 1];
      forall p ensures TiesWith(cmp, r', p) == TiesWith(cmp, u', p) {
        SameTiesOfPrefixes(cmp, r, u, p);
      }
      SortedPrefix(cmp, r);
      SortedPrefix(cmp, u);
      SortedTiesDetermine(cmp, r', u');
      assert r == r' + [r[|r| - 1]] && u == u' + [u[|u| - 1]];
    }
  }

  /** A stable sort has one possible result: any sorted list that keeps the
      input's ties in their order is StableSort's. (Equal ties for every key
      also give equal multisets, each element tying with itself.) */
  lemma StableSortUnique<T(!new)>(cmp: (T, T) -> int, s: seq<T>, r: seq<T>)
    requires TotalPreorder(cmp) && Sorted(cmp, r)
    requires forall p :: TiesWith(cmp, r, p) == TiesWith(cmp, s, p)
    ensures r == StableSort(cmp, s)
  {
    StableSortSorted(cmp, s);
    StableSortStable(cmp, s);
    SortedTiesDetermine(cmp, r, StableSort(cmp, s));
  }

  /** x goes right after the last element of t that does not come after it. */
  lemma {:induction false} InsertLastSplit<T>(cmp: (T, T) -> int, t: seq<T>, j: int, x: T)
    requires 0 <= j <= |t| && (j == 0 || cmp(t[j - 1], x) <= 0)
    requires forall k :: j <= k < |t| ==> cmp(t[k], x) > 0
    ensures InsertLast(cmp, t, x) == t[..j] + [x] + t[j..]
    decreases |t|
  {
    if j < |t| {
      var t' := t[..|t| - 1];
      assert t'[..j] == t[..j];
      InsertLastSplit(cmp, t', j, x);
      assert t[j..] == t'[j..] + [t[|t| - 1]];
    } else {
      assert t[..j] == t;
    }
  }

  /** The array during an insertion: t with x placed at position j. */
  ghost function Layout<T>(t: seq<T>, x: T, rest: seq<T>, j: int): seq<T>
    requires 0 <= j <= |t|
  {
    t[..j] + [x] + t[j..] + rest
  }

  lemma LayoutAtStart<T>(s: seq<T>, i: int)
    requires 0 <= i < |s|
    ensures s == Layout(s[..i], s[i], s[i + 1..], i)
  {
    assert s[..i][..i] == s[..i] && s[..i][i..] == [];
    assert s == s[..i] + [s[i]] + s[i + 1..];
  }

  lemma LayoutFacts<T>(t: seq<T>, x: T, rest: seq<T>, j: int)
    requires 0 <= j <= |t|
    ensures |Layout(t, x, rest, j)| == |t| + 1 + |rest|
    ensures Layout(t, x, rest, j)[j] == x
    ensures j > 0 ==> Layout(t, x, rest, j)[j - 1] == t[j - 1]
    ensures Layout(t, x, rest, j)[..|t| + 1] == t[..j] + [x] + t[j..]
    ensures Layout(t, x, rest, j)[|t| + 1..] == rest
  {
    var u := t[..j] + [x] + t[j..];
    assert Layout(t, x, rest, j) == u + rest;
    assert (u + rest)[..|u|] == u;
    assert (u + rest)[|u|..] == rest;
  }

  /** Moving x one place left past t[j - 1]. */
  lemma SwapLeft<T>(t: seq<T>, x: T, rest: seq<T>, j: int)
    requires 0 < j <= |t|
    ensures Layout(t, x, rest, j)[j - 1 := x][j := t[j - 1]] == Layout(t, x, rest, j - 1)
  {
    var u := Layout(t, x, rest, j);
    var v := Layout(t, x, rest, j - 1);
    assert |u[j - 1 := x][j := t[j - 1]]| == |v|;
    forall k | 0 <= k < |v| ensures u[j - 1 := x][j := t[j - 1]][k] == v[k] {
      if k < j - 1 {
      } else if k <= j {
      } else if k < |t| + 1 {
        assert u[k] == t[k - 1] && v[k] == t[k - 1];
      } else {
        assert u[k] == rest[k - |t| - 1] && v[k] == rest[k - |t| - 1];
      }
    }
  }

  /** One move of the inserted element: swap it with its left neighbour. */
  method SwapDown<T>(a: array<T>, j: int, ghost t: seq<T>, ghost x: T, ghost rest: seq<T>)
    requires 0 < j <= |t| && a[..] == Layout(t, x, rest, j)
    modifies a
    ensures a[..] == Layout(t, x, rest, j - 1)
    ensures old(a[j - 1]) == t[j - 1]
  {
    LayoutFacts(t, x, rest, j);
    SwapLeft(t, x, rest, j);
    ghost var before := a[..];
    a[j - 1], a[j] := a[j], a[j - 1];
    assert a[..] == before[j - 1 := x][j := t[j - 1]];
  }

  /** When x has stopped moving, the array holds InsertLast's result. */
  lemma InsertionDone<T>(cmp: (T, T) -> int, t: seq<T>, x: T, rest: seq<T>, j: int, b: seq<T>)
    requires 0 <= j <= |t| && b == Layout(t, x, rest, j)
    requires j == 0 || cmp(b[j - 1], x) <= 0
    requires forall k :: j <= k < |t| ==> cmp(t[k], x) > 0
    ensures b[..|t| + 1] == InsertLast(cmp, t, x) && b[|t| + 1..] == rest
  {
    LayoutFacts(t, x, rest, j);
    InsertLastSplit(cmp, t, j, x);
  }

  /** Inserts a[i] into the sorted prefix a[..i], moving it left past every
      element that comes after it. */
  method InsertAt<T>(a: array<T>, i: int, cmp: (T, T) -> int)
    requires 0 <= i < a.Length
    modifies a
    ensures a[..i + 1] == InsertLast(cmp, old(a[..i]), old(a[i]))
    ensures a[i + 1..] == old(a[i + 1..])
  {
    var x := a[i];
    ghost var t, rest := a[..i], a[i + 1..];
    var j := i;
    LayoutAtStart(a[..], i);
    while j > 0 && cmp(a[j - 1], x) > 0
      invariant 0 <= j <= i
      invariant a[..] == Layout(t, x, rest, j)
      invariant forall k :: j <= k < i ==> cmp(t[k], x) > 0
    {
      SwapDown(a, j, t, x, rest);
      j := j - 1;
    }
    InsertionDone(cmp, t, x, rest, j, a[..]);
    assert a[..i + 1] == a[..][..i + 1];
    assert a[i + 1..] == a[..][i + 1..];
  }

  /** StableSort of a longer prefix inserts the next element. */
  lemma StableSortPrefix<T>(cmp: (T, T) -> int, s: seq<T>, i: int)
    requires 0 <= i < |s|
    ensures StableSort(cmp, s[..i + 1]) == InsertLast(cmp, StableSort(cmp, s[..i]), s[i])
  {
    assert s[..i + 1][..i] == s[..i];
  }

  /** The comparator's sort, in place on an array, as the strategies do. */
  method SortInPlace<T>(a: array<T>, cmp: (T, T) -> int)
    modifies a
    ensures a[..] == StableSort(cmp, old(a[..]))
  {
    ghost var s := a[..];
    var i := 0;
    while i < a.Length
      invariant 0 <= i <= a.Length
      invariant a[..i] == StableSort(cmp, s[..i])
      invariant a[i..] == s[i..]
    {
      StableSortPrefix(cmp, s, i);
      ghost var before := a[..];
      assert before[i + 1..] == before[i..][1..];
      InsertAt(a, i, cmp);
      assert a[i + 1..] == s[i + 1..];
      i := i + 1;
    }
    assert a[..] == a[..a.Length] && s == s[..a.Length];
  }

  /** sortProducts: the candidate list after the selector's value is applied;
      an unknown value leaves it as it is. */
  function SortBy(orderBy: string, s: seq<Product>): (r: seq<Product>)
    ensures multiset(r) == multiset(s)
    ensures SortKeyOf(orderBy).None? ==> r == s
    ensures SortKeyOf(orderBy).Some? ==> Sorted(Comparator(SortKeyOf(orderBy).value), r)
    ensures SortKeyOf(orderBy).Some? ==> forall p ::
      TiesWith(Comparator(SortKeyOf(orderBy).value), r, p) == TiesWith(Comparator(SortKeyOf(orderBy).value), s, p)
  {
    match SortKeyOf(orderBy)
    case None => s
    case Some(key) =>
      ComparatorIsTotalPreorder(key);
      StableSortPermutation(Comparator(key), s);
      StableSortSorted(Comparator(key), s);
      StableSortStable(Comparator(key), s);
      StableSort(Comparator(key), s)
  }

  /** Sorting twice by the same value is sorting once. */
  lemma SortByIdempotent(orderBy: string, s: seq<Product>)
    ensures SortBy(orderBy, SortBy(orderBy, s)) == SortBy(orderBy, s)
  {
    if SortKeyOf(orderBy).Some? {
      SortedIsFixpoint(Comparator(SortKeyOf(orderBy).value), SortBy(orderBy, s));
    }
  }

  /** SortBy's contract determines its result: for a known key, the only
      sorted list with the input's ties is SortBy's. */
  lemma SortByUnique(orderBy: string, s: seq<Product>, r: seq<Product>)
    requires SortKeyOf(orderBy).Some?
    requires Sorted(Comparator(SortKeyOf(orderBy).value), r)
    requires forall p ::
      TiesWith(Comparator(SortKeyOf(orderBy).value), r, p) == TiesWith(Comparator(SortKeyOf(orderBy).value), s, p)
    ensures r == SortBy(orderBy, s)
  {
    var key := SortKeyOf(orderBy).value;
    ComparatorIsTotalPreorder(key);
    StableSortUnique(Comparator(key), s, r);
  }

  /** Sorting [300, 100, 200] by applied value gives [100, 200, 300]. */
  lemma ValueAppliedExample(a: Product, b: Product, c: Product)
    requires a.valueApplied == 300 && b.valueApplied == 100 && c.valueApplied == 200
    ensures SortBy("valueApplied", [a, b, c]) == [b, c, a]
  {
    ValueAppliedSteps(a, b, c);
    assert SortKeyOf("valueApplied") == Some(ByValueApplied);
  }

  lemma ValueAppliedSteps(a: Product, b: Product, c: Product)
    requires a.valueApplied == 300 && b.valueApplied == 100 && c.valueApplied == 200
    ensures StableSort(Comparator(ByValueApplied), [a, b, c]) == [b, c, a]
  {
    var cmp := Comparator(ByValueApplied);
    assert cmp(a, b) == 1 && cmp(a, c) == 1 && cmp(b, c) == -1;
    SortThree(cmp, a, b, c);
  }

  /** The insertions that sort [a, b, c] when a comes after b and c, and c
      does not come before b. */
  lemma SortThree<T>(cmp: (T, T) -> int, a: T, b: T, c: T)
    requires cmp(a, b) > 0 && cmp(a, c) > 0 && cmp(b, c) <= 0
    ensures StableSort(cmp, [a, b, c]) == [b, c, a]
  {
    assert [a, b, c][..2] == [a, b] && [a, b][..1] == [a] && [a][..0] == [];
    assert StableSort(cmp, [a]) == [a] by {
      assert StableSort(cmp, [a]) == InsertLast(cmp, [], a);
    }
    assert StableSort(cmp, [a, b]) == [b, a] by {
      assert StableSort(cmp, [a, b]) == InsertLast(cmp, [a], b);
      assert InsertLast(cmp, [a], b) == InsertLast(cmp, [], b) + [a];
    }
    assert StableSort(cmp, [a, b, c]) == InsertLast(cmp, [b, a], c);
    assert [b, a][..1] == [b];
    assert InsertLast(cmp, [b, a], c) == InsertLast(cmp, [b], c) + [a];
    assert InsertLast(cmp, [b], c) == [b, c];
  }
}
