/** A product of the fixed-income listing, as the listing reads it: its
    name, its due date (already parsed from the `dd/MM/yyyy` text) and the
    amount applied in it. */
module ProductData {

  /** A calendar date, stored as the triple the `dd/MM/yyyy` text parses to. */
  datatype Date = Date(year: int, month: int, day: int)

  datatype Product = Product(name: string, due: Date, valueApplied: int)

  predicate IsLeapYear(year: int) {
    year % 4 == 0 && (year % 100 != 0 || year % 400 == 0)
  }

  function DaysInMonth(year: int, month: int): (n: int)
    requires 1 <= month <= 12
    ensures 28 <= n <= 31
    ensures n == 29 <==> month == 2 && IsLeapYear(year)
  {
    if month == 2 then (if IsLeapYear(year) then 29 else 28)
    else if month == 4 || month == 6 || month == 9 || month == 11 then 30
    else 31
  }

  /** A date that a `dd/MM/yyyy` text can denote: four-digit year, month
      1 to 12, a day that exists in that month. */
  predicate ValidDate(d: Date) {
    0 <= d.year <= 9999 && 1 <= d.month <= 12 && 1 <= d.day <= DaysInMonth(d.year, d.month)
  }

  /** ASCII lower-casing of one character. */
  function LowerChar(c: char): (r: char)
    ensures 'A' <= c <= 'Z' ==> 'a' <= r <= 'z'
    ensures !('A' <= c <= 'Z') ==> r == c
    ensures !('A' <= r <= 'Z')
  {
    if 'A' <= c <= 'Z' then (c as int - 'A' as int + 'a' as int) as char else c
  }

  /** `toLowerCase`, on ASCII letters: same length, no upper-case letter
      left, and every other character kept. */
  function LowerCase(s: string): (r: string)
    ensures |r| == |s|
    ensures forall i :: 0 <= i < |r| ==> !('A' <= r[i] <= 'Z')
    ensures forall i :: 0 <= i < |s| && !('A' <= s[i] <= 'Z') ==> r[i] == s[i]
    ensures forall i :: 0 <= i < |s| && 'A' <= s[i] <= 'Z' ==> r[i] as int == s[i] as int + 32
  {
    seq(|s|, i requires 0 <= i < |s| => LowerChar(s[i]))
  }

  /** `hay.includes(needle)`: needle occurs in hay at some position. */
  predicate Includes(hay: string, needle: string)
    ensures Includes(hay, needle) ==> |needle| <= |hay|
    ensures Includes(hay, needle) <==> exists i, j :: 0 <= i <= j <= |hay| && hay[i..j] == needle
  {
    PrefixIsSlice(hay, needle);
    exists i | 0 <= i <= |hay| - |needle| :: needle <= hay[i..]
  }

  /** needle starts hay at some i exactly when it is a slice of hay. */
  lemma PrefixIsSlice(hay: string, needle: string)
    ensures (exists i | 0 <= i <= |hay| - |needle| :: needle <= hay[i..])
        <==> exists i, j :: 0 <= i <= j <= |hay| && hay[i..j] == needle
  {
    if exists i | 0 <= i <= |hay| - |needle| :: needle <= hay[i..] {
      var i :| 0 <= i <= |hay| - |needle| && needle <= hay[i..];
      assert hay[i..][..|needle|] == hay[i..i + |needle|];
      assert hay[i..i + |needle|] == needle;
    }
    if exists i, j :: 0 <= i <= j <= |hay| && hay[i..j] == needle {
      var i, j :| 0 <= i <= j <= |hay| && hay[i..j] == needle;
      assert hay[i..][..|needle|] == hay[i..j];
      assert needle <= hay[i..];
    }
  }

  lemma {:induction false} LowerCaseIdempotent(s: string)
    ensures LowerCase(LowerCase(s)) == LowerCase(s)
  {
    var l := LowerCase(s);
    assert |LowerCase(l)| == |l|;
    forall i | 0 <= i < |l| ensures LowerCase(l)[i] == l[i] {
      assert !('A' <= l[i] <= 'Z');
    }
  }

  lemma EveryTextIncludesEmpty(hay: string)
    ensures Includes(hay, "")
  {
    assert "" <= hay[0..];
  }
}
