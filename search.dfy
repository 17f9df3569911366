/** The search box of the listing: a product stays a candidate when its
    lower-cased name includes the lower-cased search text. */
module Search {
  import opened ProductData

  /** `product.fixedIncome.name.toLowerCase().includes(needle)` for an
      already lower-cased needle. */
  predicate Matches(p: Product, needle: string)
    ensures Matches(p, needle) ==> |needle| <= |p.name|
    ensures needle <= LowerCase(p.name) ==> Matches(p, needle)
  {
    assert LowerCase(p.name)[0..] == LowerCase(p.name);
    Includes(LowerCase(p.name), needle)
  }

  /** r keeps some of the elements of s, in their order in s. */
  predicate IsSubsequence<T(==)>(r: seq<T>, s: seq<T>)
    decreases |s|
  {
    if r == [] then true
    else if s == [] then false
    else (r[0] == s[0] && IsSubsequence(r[1..], s[1..])) || IsSubsequence(r, s[1..])
  }

  /** `Array.prototype.filter` with the `Matches` test. */
  function KeepMatching(s: seq<Product>, needle: string): (r: seq<Product>)
    ensures IsSubsequence(r, s)
    ensures forall i :: 0 <= i < |r| ==> Matches(r[i], needle)
    ensures forall p :: multiset(r)[p] == if Matches(p, needle) then multiset(s)[p] else 0
  {
    if s == [] then []
    else
      assert s == [s[0]] + s[1..];
      var rest := KeepMatching(s[1..], needle);
      if Matches(s[0], needle) then
        assert ([s[0]] + rest)[1..] == rest;
        [s[0]] + rest
      else rest
  }

  /** handleInputTextChange's new candidate list: the whole source when the
      text is empty, otherwise the source products whose names match. */
  function Filter(source: seq<Product>, text: string): (r: seq<Product>)
    ensures text == "" ==> r == source
    ensures IsSubsequence(r, source)
    ensures forall i :: 0 <= i < |r| ==> Matches(r[i], LowerCase(text))
    ensures forall p :: multiset(r)[p] == if Matches(p, LowerCase(text)) then multiset(source)[p] else 0
    ensures forall p :: p in r <==> p in source && Matches(p, LowerCase(text))
    ensures multiset(r) <= multiset(source)
  {
    if text == "" then
      EveryNameMatchesEmpty(source);
      SubsequenceOfItself(source);
      source
    else KeepMatching(source, LowerCase(text))
  }

  lemma EveryNameMatchesEmpty(s: seq<Product>)
    ensures forall p :: Matches(p, LowerCase(""))
  {
    forall p ensures Matches(p, LowerCase("")) {
      EveryTextIncludesEmpty(LowerCase(p.name));
    }
  }

  lemma {:induction false} SubsequenceOfItself<T>(s: seq<T>)
    ensures IsSubsequence(s, s)
  {
    if s != [] {
      SubsequenceOfItself(s[1..]);
    }
  }

  /** The `inputText !== ''` guard only saves work: filtering with the empty
      needle keeps every product, since every name includes "". */
  lemma {:induction false} EmptyNeedleKeepsAll(s: seq<Product>)
    ensures KeepMatching(s, "") == s
  {
    if s != [] {
      EveryTextIncludesEmpty(LowerCase(s[0].name));
      EmptyNeedleKeepsAll(s[1..]);
    }
  }

  /** Searching again with the same text changes nothing. */
  lemma FilterIdempotent(source: seq<Product>, text: string)
    ensures Filter(Filter(source, text), text) == Filter(source, text)
  {
    if text != "" {
      KeepAllMatching(Filter(source, text), LowerCase(text));
    }
  }

  lemma {:induction false} KeepAllMatching(s: seq<Product>, needle: string)
    requires forall i :: 0 <= i < |s| ==> Matches(s[i], needle)
    ensures KeepMatching(s, needle) == s
  {
    if s != [] {
      KeepAllMatching(s[1..], needle);
    }
  }

  /** The search ignores the case of the typed text: it is lower-cased
      before it is compared. */
  lemma FilterIgnoresCase(source: seq<Product>, text: string)
    ensures Filter(source, LowerCase(text)) == Filter(source, text)
  {
    LowerCaseIdempotent(text);
  }

  /** Searching "Tesouro" among "Tesouro Selic" and "CDB Banco X" keeps only
      "Tesouro Selic". */
  lemma TesouroExample(d: Date, v: int, w: int)
    ensures Filter([Product("Tesouro Selic", d, v), Product("CDB Banco X", d, w)], "Tesouro")
         == [Product("Tesouro Selic", d, v)]
  {
    var a, b := Product("Tesouro Selic", d, v), Product("CDB Banco X", d, w);
    TesouroMatches(a);
    CdbDoesNotMatch(b);
    assert [a, b][1..] == [b];
  }

  lemma TesouroMatches(a: Product)
    requires a.name == "Tesouro Selic"
    ensures Matches(a, LowerCase("Tesouro"))
  {
    var needle := LowerCase("Tesouro");
    assert needle == "tesouro";
    assert LowerCase(a.name) == "tesouro selic";
    assert needle <= LowerCase(a.name)[0..];
  }

  lemma CdbDoesNotMatch(b: Product)
    requires b.name == "CDB Banco X"
    ensures !Matches(b, LowerCase("Tesouro"))
  {
    var needle := LowerCase("Tesouro");
    assert needle[0] == 't' && |needle| == 7;
    var hay := LowerCase(b.name);
    assert hay == "cdb banco x";
    forall i | 0 <= i <= |hay| - |needle| ensures !(needle <= hay[i..]) {
      assert hay[i] != 't';
    }
  }
}
