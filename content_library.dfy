/**
  The year facet of the content-library page: `extractYear` reads the year of a report's
  date string, `getUniqueYears` lists the distinct years newest first for the dropdown, and
  the selected year filters the (already sorted) report list.
*/
module ContentLibrary {
  import opened Wrappers
  import opened JsText
  import opened ReportDates
  import opened NewestFirstSort

  /** A canonical year string: the decimal form, without sign or leading zeros, of a year in [1900, 2100]. */
  predicate YearString(y: string) {
    var n := ParseInt(y);
    n.Int? && 1900 <= n.value <= 2100 && y == DecimalString(n.value)
  }

  /** The numeric value of a canonical year string. */
  function YearValue(y: string): int
    requires YearString(y)
  {
    ParseInt(y).value
  }

  /** `toString` of a year in [1900, 2100] is a canonical year string with that value. */
  lemma DecimalYear(v: int)
    requires 1900 <= v <= 2100
    ensures YearString(DecimalString(v)) && YearValue(DecimalString(v)) == v
  {
    ParseIntDecimal(v, "");
    assert DecimalString(v) + "" == DecimalString(v);
  }

  /**
    `extractYear`: an empty string has no year; otherwise the string is trimmed (not
    lower-cased) and split on whitespace, it must give exactly two pieces, and the second
    must start with a year in [1900, 2100], which is returned as its decimal string. The
    first piece is not looked at.
  */
  function ExtractYear(dateStr: string): (r: Option<string>)
    ensures dateStr == "" ==> r == None
    ensures r.Some? ==> YearString(r.value)
  {
    if dateStr == "" then None
    else
      var parts := Split(Trim(dateStr));
      if |parts| != 2 || !YearInRange(ParseInt(parts[1])) then None
      else
        var v := ParseInt(parts[1]).value;
        DecimalYear(v);
        Some(DecimalString(v))
  }

  /** Reference reading of a year from the words of a date: two words, the second starting with a year in range. */
  function YearOfWords(words: seq<string>): Option<string> {
    if |words| != 2 || !YearInRange(ParseInt(words[1])) then None
    else Some(DecimalString(ParseInt(words[1]).value))
  }

  /** `extractYear` decides on the words of its input, whatever whitespace surrounds them. */
  lemma ExtractYearIsYearOfWords(s: string)
    ensures ExtractYear(s) == YearOfWords(Words(s))
  {
    if s == "" {
      assert Words(s) == [];
    } else {
      SplitTrim(s);
    }
  }

  /** Whenever `parseDate` accepts a date, `extractYear` yields the year of that date. */
  lemma ExtractYearOfParsedDate(s: string)
    requires ParseDate(s).Valid?
    ensures ExtractYear(s) == Some(DecimalString(ParseDate(s).year))
  {
    ParseDateIsDateOfWords(s);
    ExtractYearIsYearOfWords(s);
  }

  /**
    `extractYear` never checks the month: any first word followed by a year yields that
    year, although `parseDate` rejects the same string when the word is not a month name.
  */
  lemma ExtractYearIgnoresMonth(w1: string, word: string, w2: string, yearWord: string, w3: string, y: int)
    requires AllSpace(w1) && AllSpace(w2) && AllSpace(w3) && w2 != []
    requires word != [] && NoSpace(word) && Lower(word) !in MonthNames
    requires yearWord != [] && NoSpace(yearWord) && ParseInt(yearWord) == Int(y) && 1900 <= y <= 2100
    ensures ExtractYear(w1 + word + w2 + yearWord + w3) == Some(DecimalString(y))
    ensures ParseDate(w1 + word + w2 + yearWord + w3) == Invalid
  {
    var s := w1 + word + w2 + yearWord + w3;
    WordsOfTwo(w1, word, w2, yearWord, w3);
    ExtractYearIsYearOfWords(s);
    ParseDateIsDateOfWords(s);
  }

  /** The year of a report: `extractYear` of its date. */
  function YearOf(r: Report): Option<string> {
    ExtractYear(r.date)
  }

  /** The years `yearOf` finds among `items`. */
  function YearsBy(items: seq<Report>, yearOf: Report -> Option<string>): set<string> {
    if items == [] then {}
    else
      var last := yearOf(items[|items| - 1]);
      YearsBy(items[..|items| - 1], yearOf) + (if last.Some? then {last.value} else {})
  }

  /** A year is found exactly when some report yields it. */
  lemma {:induction false} YearsByMember(items: seq<Report>, yearOf: Report -> Option<string>, y: string)
    ensures y in YearsBy(items, yearOf) <==> exists r :: r in items && yearOf(r) == Some(y)
    decreases |items|
  {
    if items != [] {
      var init := items[..|items| - 1];
      YearsByMember(init, yearOf, y);
      assert items == init + [items[|items| - 1]];
      if exists r :: r in items && yearOf(r) == Some(y) {
        var r :| r in items && yearOf(r) == Some(y);
        if r != items[|items| - 1] {
          assert r in init;
        }
      }
    }
  }

  /** The years `extractYear` finds among the dates of `items`. */
  function YearSet(items: seq<Report>): set<string> {
    YearsBy(items, YearOf)
  }

  /** A year is in the set exactly when some report's date yields it. */
  lemma YearSetMember(items: seq<Report>, y: string)
    ensures y in YearSet(items) <==> exists r :: r in items && YearOf(r) == Some(y)
  {
    YearsByMember(items, YearOf, y);
  }

  /**
    The comparator `getUniqueYears` hands to `sort`, `parseInt(b) - parseInt(a)`, on the two
    numbers read: descending; a `NaN` difference counts as a tie, as `sort` treats it.
  */
  function CompareNumbers(x: NumberValue, y: NumberValue): (r: int)
    ensures x.NaN? || y.NaN? ==> r == 0
    ensures x.Int? && y.Int? ==> (r < 0 <==> y.value < x.value) && (r > 0 <==> x.value < y.value)
    ensures x.Int? && y.Int? ==> (r == 0 <==> x == y)
  {
    if x.NaN? || y.NaN? then 0 else y.value - x.value
  }

  /** Every entry is a canonical year string. */
  predicate AllYearStrings(s: seq<string>) {
    forall i :: 0 <= i < |s| ==> YearString(s[i])
  }

  /** No entry occurs twice. */
  predicate Distinct(s: seq<string>) {
    forall i, j :: 0 <= i < j < |s| ==> s[i] != s[j]
  }

  /** Strictly descending by numeric value. */
  predicate StrictlyDescending(s: seq<string>)
    requires AllYearStrings(s)
  {
    forall i, j :: 0 <= i < j < |s| ==> YearValue(s[j]) < YearValue(s[i])
  }

  /**
    The year sort is stated for any reading `number` of the strings as numbers;
    `getUniqueYears` reads them with `parseInt`.
  */
  predicate AllNumbers(s: seq<string>, number: string -> NumberValue) {
    forall i :: 0 <= i < |s| ==> number(s[i]).Int?
  }

  /** The first `n` entries are in non-increasing numeric order. */
  predicate DescendingPrefix(s: seq<string>, n: int, number: string -> NumberValue)
    requires AllNumbers(s, number) && 0 <= n <= |s|
  {
    forall k, l :: 0 <= k < l < n ==> number(s[l]).value <= number(s[k]).value
  }

  /** Ordering while entry `j` travels towards the front, as in `NewestFirstSort.InsertionRanking`. */
  predicate NumberInsertion(s: seq<string>, i: int, j: int, number: string -> NumberValue)
    requires AllNumbers(s, number) && 0 <= j <= i < |s|
  {
    (forall k, l :: 0 <= k < l <= i && k != j && l != j ==> number(s[l]).value <= number(s[k]).value)
    && (forall l :: j < l <= i ==> number(s[l]).value < number(s[j]).value)
  }

  lemma NumberInsertionSwap(s: seq<string>, i: int, j: int, number: string -> NumberValue)
    requires AllNumbers(s, number) && 0 < j <= i < |s| && NumberInsertion(s, i, j, number)
    requires number(s[j - 1]).value < number(s[j]).value
    ensures AllNumbers(s[j - 1 := s[j]][j := s[j - 1]], number)
    ensures NumberInsertion(s[j - 1 := s[j]][j := s[j - 1]], i, j - 1, number)
  {
    var t := s[j - 1 := s[j]][j := s[j - 1]];
    assert AllNumbers(t, number) by {
      forall k | 0 <= k < |t|
        ensures number(t[k]).Int?
      {
        assert t[k] == s[k] || t[k] == s[j] || t[k] == s[j - 1];
      }
    }
    forall k, l | 0 <= k < l <= i && k != j - 1 && l != j - 1
      ensures number(t[l]).value <= number(t[k]).value
    {
      if l == j {
        assert t[l] == s[j - 1];
      } else if k == j {
        assert t[k] == s[j - 1];
      }
    }
  }

  lemma NumberInsertionStops(s: seq<string>, i: int, j: int, number: string -> NumberValue)
    requires AllNumbers(s, number) && 0 <= j <= i < |s| && NumberInsertion(s, i, j, number)
    requires 0 < j ==> number(s[j]).value <= number(s[j - 1]).value
    ensures DescendingPrefix(s, i + 1, number)
  {
    forall k, l | 0 <= k < l <= i
      ensures number(s[l]).value <= number(s[k]).value
    {
      if k < j <= l {
        if k < j - 1 {
          assert number(s[j - 1]).value <= number(s[k]).value;
        }
        if j < l {
          assert number(s[l]).value < number(s[j]).value;
        }
      }
    }
  }

  /** Exchanging two neighbours rearranges a list. */
  lemma SwapPermutes(s: seq<string>, j: int)
    requires 0 < j < |s|
    ensures multiset(s[j - 1 := s[j]][j := s[j - 1]]) == multiset(s)
  {
    var t := s[j - 1 := s[j]][j := s[j - 1]];
    forall x
      ensures multiset(t)[x] == multiset(s)[x]
    {
      SwapCount(s, j, x);
    }
  }

  lemma {:induction false} SwapCount(s: seq<string>, j: int, x: string)
    requires 0 < j < |s|
    ensures multiset(s[j - 1 := s[j]][j := s[j - 1]])[x] == multiset(s)[x]
  {
    var t := s[j - 1 := s[j]][j := s[j - 1]];
    var front, back := s[..j - 1], s[j + 1..];
    assert s == front + ([s[j - 1]] + ([s[j]] + back));
    assert t == front + ([s[j]] + ([s[j - 1]] + back));
  }

  /** One insertion step of the year sort. */
  method InsertByNumber(a: array<string>, i: int, number: string -> NumberValue)
    requires AllNumbers(a[..], number) && 0 <= i < a.Length && DescendingPrefix(a[..], i, number)
    modifies a
    ensures AllNumbers(a[..], number) && DescendingPrefix(a[..], i + 1, number)
    ensures multiset(a[..]) == multiset(old(a[..]))
  {
    var j := i;
    while 0 < j && CompareNumbers(number(a[j - 1]), number(a[j])) > 0
      invariant 0 <= j <= i
      invariant AllNumbers(a[..], number) && NumberInsertion(a[..], i, j, number)
      invariant multiset(a[..]) == multiset(old(a[..]))
    {
      ghost var before := a[..];
      a[j - 1], a[j] := a[j], a[j - 1];
      assert a[..] == before[j - 1 := before[j]][j := before[j - 1]];
      SwapPermutes(before, j);
      NumberInsertionSwap(before, i, j, number);
      j := j - 1;
    }
    NumberInsertionStops(a[..], i, j, number);
  }

  /** Sorts `a` in place, numerically descending, by insertion with `CompareNumbers`. */
  method SortByNumber(a: array<string>, number: string -> NumberValue)
    requires AllNumbers(a[..], number)
    modifies a
    ensures AllNumbers(a[..], number) && DescendingPrefix(a[..], a.Length, number)
    ensures multiset(a[..]) == multiset(old(a[..]))
  {
    var i := 0;
    while i < a.Length
      invariant 0 <= i <= a.Length
      invariant AllNumbers(a[..], number) && DescendingPrefix(a[..], i, number)
      invariant multiset(a[..]) == multiset(old(a[..]))
    {
      InsertByNumber(a, i, number);
      i := i + 1;
    }
  }

  /** Distinct canonical year strings have distinct values, so a descending order of them is strict. */
  lemma DistinctDescendingIsStrict(s: seq<string>)
    requires AllYearStrings(s) && Distinct(s)
    requires AllNumbers(s, ParseInt) && DescendingPrefix(s, |s|, ParseInt)
    ensures StrictlyDescending(s)
  {
    forall i, j | 0 <= i < j < |s|
      ensures YearValue(s[j]) < YearValue(s[i])
    {
      YearValueInjective(s[i], s[j]);
    }
  }

  /** Two different canonical year strings have different values. */
  lemma YearValueInjective(a: string, b: string)
    requires YearString(a) && YearString(b) && a != b
    ensures YearValue(a) != YearValue(b)
  {
  }

  /** A rearrangement of a list without repeats has no repeats. */
  lemma DistinctPermutation(s: seq<string>, t: seq<string>)
    requires Distinct(s) && multiset(t) == multiset(s)
    ensures Distinct(t)
  {
    forall i, j | 0 <= i < j < |t|
      ensures t[i] != t[j]
    {
      if t[i] == t[j] {
        var x := t[i];
        assert multiset(t)[x] >= 2 by {
          assert t == t[..j] + [t[j]] + t[j + 1..];
          assert x in t[..j];
        }
        DistinctCount(s, x);
      }
    }
  }

  /** In a list without repeats every entry occurs at most once. */
  lemma {:induction false} DistinctCount(s: seq<string>, x: string)
    requires Distinct(s)
    ensures multiset(s)[x] <= 1
    decreases |s|
  {
    if s != [] {
      assert s == [s[0]] + s[1..];
      DistinctCount(s[1..], x);
      if s[0] == x {
        assert x !in s[1..];
      }
    }
  }

  /** Every year in the set is a canonical year string. */
  lemma YearSetCanonical(items: seq<Report>)
    ensures forall y :: y in YearSet(items) ==> YearString(y)
  {
    forall y | y in YearSet(items)
      ensures YearString(y)
    {
      YearSetMember(items, y);
      var r :| r in items && YearOf(r) == Some(y);
    }
  }

  /** Canonical year strings all read as numbers. */
  lemma YearStringsAreNumbers(s: seq<string>)
    requires AllYearStrings(s)
    ensures AllNumbers(s, ParseInt)
  {
    forall i | 0 <= i < |s|
      ensures ParseInt(s[i]).Int?
    {
      assert YearString(s[i]);
    }
  }

  /** A rearrangement of canonical year strings consists of canonical year strings. */
  lemma PermutationKeepsYearStrings(s: seq<string>, t: seq<string>)
    requires AllYearStrings(s) && multiset(t) == multiset(s)
    ensures AllYearStrings(t)
  {
    forall i | 0 <= i < |t|
      ensures YearString(t[i])
    {
      assert t[i] in multiset(t);
      var k :| 0 <= k < |s| && s[k] == t[i];
    }
  }

  /** `extractYear` never yields the empty string, so its `if (year)` test only drops `null`. */
  lemma YearOfNotEmpty()
    ensures forall r :: YearOf(r) != Some("")
  {
    forall r
      ensures YearOf(r) != Some("")
    {
    }
  }

  /**
    The `forEach` of `getUniqueYears`: each report's year, when it is truthy (neither `null`
    nor empty), is added to the set, which keeps one copy of each year in the order first
    seen. `yearOf` is the year reader, `YearOf` on the page.
  */
  method GatherYears(items: seq<Report>, yearOf: Report -> Option<string>) returns (seen: seq<string>)
    requires forall r :: yearOf(r) != Some("")
    ensures forall y :: y in seen <==> y in YearsBy(items, yearOf)
    ensures Distinct(seen)
  {
    seen := [];
    var k := 0;
    while k < |items|
      invariant 0 <= k <= |items|
      invariant forall y :: y in seen <==> y in YearsBy(items[..k], yearOf)
      invariant Distinct(seen)
    {
      var year := yearOf(items[k]);
      assert items[..k + 1][..k] == items[..k];
      if year.Some? && year.value != "" && year.value !in seen {
        seen := seen + [year.value];
      }
      k := k + 1;
    }
    assert items[..k] == items;
  }

  /**
    `getUniqueYears`: the years of the reports, gathered in a set and then sorted
    numerically descending. Every listed year is a canonical year string that some report's
    date yields, every year some report yields is listed, and no year is listed twice.
  */
  method UniqueYears(items: seq<Report>) returns (years: seq<string>)
    ensures forall y :: y in years <==> y in YearSet(items)
    ensures AllYearStrings(years) && Distinct(years) && StrictlyDescending(years)
  {
    YearOfNotEmpty();
    var seen := GatherYears(items, YearOf);
    YearSetCanonical(items);
    assert AllYearStrings(seen);
    YearStringsAreNumbers(seen);
    var a := new string[|seen|](i requires 0 <= i < |seen| => seen[i]);
    assert a[..] == seen;
    SortByNumber(a, ParseInt);
    years := a[..];
    assert forall y :: y in years <==> y in multiset(years);
    assert forall y :: y in seen <==> y in multiset(seen);
    PermutationKeepsYearStrings(seen, years);
    DistinctPermutation(seen, years);
    DistinctDescendingIsStrict(years);
  }

  /** The reports whose year, as `yearOf` reads it, is `year`, in list order. */
  function KeepBy(reports: seq<Report>, yearOf: Report -> Option<string>, year: string): (shown: seq<Report>)
    ensures |shown| <= |reports|
    ensures forall i :: 0 <= i < |shown| ==> yearOf(shown[i]) == Some(year)
  {
    if reports == [] then []
    else
      var rest := KeepBy(reports[1..], yearOf, year);
      if yearOf(reports[0]) == Some(year) then [reports[0]] + rest else rest
  }

  /** `reports.filter(...)`: the reports whose date yields the selected year, in list order. */
  function KeepYear(reports: seq<Report>, year: string): (shown: seq<Report>)
    ensures |shown| <= |reports|
    ensures forall i :: 0 <= i < |shown| ==> YearOf(shown[i]) == Some(year)
  {
    KeepBy(reports, YearOf, year)
  }

  /**
    `filteredReports`: the whole list when the selector is `"all"`, otherwise the reports of
    the selected year.
  */
  function FilterByYear(reports: seq<Report>, selectedYear: string): (shown: seq<Report>)
    ensures selectedYear == "all" ==> shown == reports
    ensures selectedYear != "all" ==> shown == KeepYear(reports, selectedYear)
  {
    if selectedYear == "all" then reports else KeepYear(reports, selectedYear)
  }

  /** Filtering by year gives an order-preserving part of the list. */
  lemma {:induction false} KeepYearSubsequence(reports: seq<Report>, yearOf: Report -> Option<string>, year: string)
    ensures SubsequenceOf(KeepBy(reports, yearOf, year), reports)
    decreases |reports|
  {
    if reports != [] {
      var h, t := reports[0], reports[1..];
      KeepYearSubsequence(t, yearOf, year);
      if yearOf(h) == Some(year) {
        assert KeepBy(reports, yearOf, year) == [h] + KeepBy(t, yearOf, year);
        assert KeepBy(reports, yearOf, year)[1..] == KeepBy(t, yearOf, year);
      } else {
        assert KeepBy(reports, yearOf, year) == KeepBy(t, yearOf, year);
        SubsequenceSkip(KeepBy(t, yearOf, year), reports);
      }
    }
  }

  /**
    Filtering by year keeps each report of the selected year as often as the list holds it,
    and no other report.
  */
  lemma {:induction false} KeepYearCount(reports: seq<Report>, yearOf: Report -> Option<string>, year: string, r: Report)
    ensures multiset(KeepBy(reports, yearOf, year))[r] == if yearOf(r) == Some(year) then multiset(reports)[r] else 0
    decreases |reports|
  {
    if reports != [] {
      var h, t := reports[0], reports[1..];
      KeepYearCount(t, yearOf, year, r);
      assert reports == [h] + t;
      var front: seq<Report> := if yearOf(h) == Some(year) then [h] else [];
      assert KeepBy(reports, yearOf, year) == front + KeepBy(t, yearOf, year);
    }
  }

  /** A report is shown exactly when it is in the list and its date yields the selected year. */
  lemma KeepYearMember(reports: seq<Report>, year: string, r: Report)
    ensures r in KeepYear(reports, year) <==> r in reports && YearOf(r) == Some(year)
  {
    KeepYearCount(reports, YearOf, year, r);
  }

  /** Every year offered in the dropdown selects at least one report. */
  lemma YearOfferedIsNotEmpty(reports: seq<Report>, year: string)
    requires year in YearSet(reports)
    ensures year != "all" && FilterByYear(reports, year) != []
  {
    YearSetMember(reports, year);
    var r :| r in reports && ExtractYear(r.date) == Some(year);
    KeepYearMember(reports, year, r);
  }

  /** Filtering a newest-first list keeps it newest first. */
  lemma KeepYearKeepsOrder(reports: seq<Report>, year: string)
    requires NewestFirst(reports)
    ensures NewestFirst(KeepYear(reports, year))
  {
    KeepYearSubsequence(reports, YearOf, year);
    SubsequenceKeepsOrder(KeepYear(reports, year), reports, DateOf);
  }

  /**
    What the page derives from its sorted report list and the selected year (the
    `uniqueYears` and `filteredReports` constants): the dropdown years and the reports shown.
  */
  method LibraryView(reports: seq<Report>, selectedYear: string) returns (years: seq<string>, shown: seq<Report>)
    ensures forall y :: y in years <==> y in YearSet(reports)
    ensures AllYearStrings(years) && StrictlyDescending(years)
    ensures shown == FilterByYear(reports, selectedYear)
    ensures NewestFirst(reports) ==> NewestFirst(shown)
  {
    years := UniqueYears(reports);
    shown := FilterByYear(reports, selectedYear);
    if NewestFirst(reports) && selectedYear != "all" {
      KeepYearKeepsOrder(reports, selectedYear);
    }
  }
}
