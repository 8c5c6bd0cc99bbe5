/**
  The report date logic that the Perspectives page, the content-library page and the admin
  reports dashboard each carry a copy of: `parseDate`, which reads a free-text
  "<Month> <Year>" string, the comparator that `sortByDate` hands to `Array.prototype.sort`,
  and `sortByDate` itself, which sorts a copy of the report list newest first with the
  unparseable dates at the end.
*/
module ReportDates {
  import opened Wrappers
  import opened JsText

  /** A report as the reports endpoint returns it. */
  datatype Report = Report(
    id: string,
    title: string,
    date: string,
    imageUrl: string,
    bannerImageUrl: Option<string>,
    pdfUrl: string)

  /**
    What `parseDate` yields: the first day of a calendar month (`month` 0 is January), or
    the marker for a date string it cannot read.
  */
  datatype ParsedDate = Valid(year: int, month: int) | Invalid

  /** A parsed date lies in the accepted year range and names one of the twelve months. */
  predicate WellFormed(d: ParsedDate) {
    d.Valid? ==> 1900 <= d.year <= 2100 && 0 <= d.month < 12
  }

  /** The month table: the twelve full English month names, lower case, January first. */
  const MonthNames: seq<string> := [
    "january", "february", "march", "april", "may", "june",
    "july", "august", "september", "october", "november", "december"]

  /** Looks `name` up in the month table, giving its month number (0 for January). */
  function MonthIndex(name: string): (m: Option<nat>)
    ensures m.Some? ==> m.value < |MonthNames| && MonthNames[m.value] == name
    ensures m.None? ==> name !in MonthNames
  {
    IndexFrom(MonthNames, name, 0)
  }

  /** The first position at or after `from` where `names` holds `name`. */
  function IndexFrom(names: seq<string>, name: string, from: nat): (m: Option<nat>)
    requires from <= |names|
    ensures m.Some? ==> from <= m.value < |names| && names[m.value] == name
    ensures m.None? ==> name !in names[from..]
    decreases |names| - from
  {
    if from == |names| then None
    else if names[from] == name then Some(from)
    else IndexFrom(names, name, from + 1)
  }

  predicate YearInRange(n: NumberValue) {
    n.Int? && 1900 <= n.value <= 2100
  }

  /**
    `parseDate`: an empty string is unparseable; otherwise the string is trimmed, lower-cased
    and split on whitespace, and the pieces are read by `DateOfPieces`.
  */
  function ParseDate(dateStr: string): (d: ParsedDate)
    ensures WellFormed(d)
    ensures dateStr == "" ==> d == Invalid
  {
    if dateStr == "" then Invalid else DateOfPieces(Split(Lower(Trim(dateStr))))
  }

  /**
    The pieces must be exactly two: a month name from the table and a number (read by
    `parseInt`) between 1900 and 2100 inclusive.
  */
  function DateOfPieces(parts: seq<string>): (d: ParsedDate)
    ensures WellFormed(d)
  {
    if |parts| != 2 then Invalid
    else
      var year := ParseInt(parts[1]);
      var month := MonthIndex(parts[0]);
      if month.None? || !YearInRange(year) then Invalid
      else Valid(year.value, month.value)
  }

  /**
    Reference reading of a date from its whitespace-separated words: exactly two words, the
    first a month name in any letter case, the second starting with a year in [1900, 2100].
  */
  function DateOfWords(words: seq<string>): ParsedDate {
    if |words| != 2 || Lower(words[0]) !in MonthNames || !YearInRange(ParseInt(words[1])) then Invalid
    else Valid(ParseInt(words[1]).value, MonthIndex(Lower(words[0])).value)
  }

  /** Reading the lower-cased words as pieces is reading the words themselves. */
  lemma DateOfLoweredWords(words: seq<string>)
    ensures DateOfPieces(if words == [] then [""] else LowerEach(words)) == DateOfWords(words)
  {
    if |words| == 2 {
      var parts := LowerEach(words);
      assert parts[0] == Lower(words[0]) && parts[1] == Lower(words[1]);
      ParseIntLower(words[1]);
      assert ParseInt(parts[1]) == ParseInt(words[1]);
    }
  }

  /** `parseDate` decides on the words of its input, whatever whitespace and letter case surround them. */
  lemma ParseDateIsDateOfWords(s: string)
    ensures ParseDate(s) == DateOfWords(Words(s))
  {
    if s == "" {
      assert Words(s) == [];
    } else {
      SplitLowerTrim(s);
      DateOfLoweredWords(Words(s));
    }
  }

  /**
    The unparseable cases: no words or a number of words other than two, a first word that
    is not a month name, a second word that does not start with a year in [1900, 2100].
  */
  lemma ParseDateRejects(s: string)
    ensures AllSpace(s) ==> ParseDate(s) == Invalid
    ensures |Words(s)| != 2 ==> ParseDate(s) == Invalid
    ensures |Words(s)| == 2 && Lower(Words(s)[0]) !in MonthNames ==> ParseDate(s) == Invalid
    ensures |Words(s)| == 2 && !YearInRange(ParseInt(Words(s)[1])) ==> ParseDate(s) == Invalid
  {
    ParseDateIsDateOfWords(s);
    if AllSpace(s) {
      WordsSkipSpace(s, []);
      assert s + [] == s;
    }
  }

  /**
    A month name in any letter case and a year, separated by whitespace and surrounded by
    any whitespace, parse to the first day of that month: the month whose table entry is
    the lower-cased name.
  */
  lemma ParseDateAccepts(w1: string, monthWord: string, w2: string, yearWord: string, w3: string, y: int)
    requires AllSpace(w1) && AllSpace(w2) && AllSpace(w3) && w2 != []
    requires monthWord != [] && NoSpace(monthWord) && Lower(monthWord) in MonthNames
    requires yearWord != [] && NoSpace(yearWord) && ParseInt(yearWord) == Int(y) && 1900 <= y <= 2100
    ensures ParseDate(w1 + monthWord + w2 + yearWord + w3) == Valid(y, MonthIndex(Lower(monthWord)).value)
    ensures MonthNames[ParseDate(w1 + monthWord + w2 + yearWord + w3).month] == Lower(monthWord)
  {
    WordsOfTwo(w1, monthWord, w2, yearWord, w3);
    ParseDateIsDateOfWords(w1 + monthWord + w2 + yearWord + w3);
  }

  /** Position of a parseable date on a month-by-month time line. */
  function MonthStamp(d: ParsedDate): int
    requires d.Valid?
  {
    d.year * 12 + d.month
  }

  /**
    The comparator `sortByDate` hands to `Array.prototype.sort` (negative puts `a` first):
    two unparseable dates tie, an unparseable date goes after a parseable one, and two
    parseable dates go newest first.
  */
  function CompareDates(a: ParsedDate, b: ParsedDate): int {
    if a.Invalid? && b.Invalid? then 0
    else if a.Invalid? then 1
    else if b.Invalid? then -1
    else MonthStamp(b) - MonthStamp(a)
  }

  /** The date a report is sorted by: its `date` field as `parseDate` reads it. */
  function DateOf(r: Report): ParsedDate {
    ParseDate(r.date)
  }

  /** The comparator on reports: their dates compared. */
  function CompareReports(a: Report, b: Report): int {
    CompareDates(DateOf(a), DateOf(b))
  }

  /** Newest-first rank of a date: larger is newer, and the unparseable marker ranks last. */
  function Rank(d: ParsedDate): int {
    if d.Valid? then MonthStamp(d) else -1
  }

  /**
    On well-formed dates the comparator is consistent, as `Array.prototype.sort` needs: it
    orders dates by a single rank, it is antisymmetric, and it ties exactly equal dates.
  */
  lemma CompareDatesByRank(a: ParsedDate, b: ParsedDate)
    requires WellFormed(a) && WellFormed(b)
    ensures CompareDates(a, b) <= 0 <==> Rank(b) <= Rank(a)
    ensures CompareDates(a, b) == -CompareDates(b, a)
    ensures Rank(a) == Rank(b) <==> a == b
  {
    if a.Valid? && b.Valid? && Rank(a) == Rank(b) {
      assert a.year * 12 + a.month == b.year * 12 + b.month;
      assert a.year == b.year;
    }
  }

  /** Calendar order of two valid dates: `b` is no later than `a`, by year, then by month. */
  predicate CalendarNotAfter(b: ParsedDate, a: ParsedDate)
    requires a.Valid? && b.Valid?
  {
    b.year < a.year || (b.year == a.year && b.month <= a.month)
  }

  /** Rank order on valid dates is calendar order. */
  lemma RankIsCalendarOrder(a: ParsedDate, b: ParsedDate)
    requires WellFormed(a) && WellFormed(b) && a.Valid? && b.Valid?
    ensures Rank(b) <= Rank(a) <==> CalendarNotAfter(b, a)
  {
  }

  /**
    The comparator case by case: two unparseable dates tie, an unparseable date sorts after
    a parseable one, and of two parseable dates the later in the calendar sorts first, with
    a tie exactly for the same month of the same year.
  */
  lemma CompareDatesCases(a: ParsedDate, b: ParsedDate)
    requires WellFormed(a) && WellFormed(b)
    ensures a.Invalid? && b.Invalid? ==> CompareDates(a, b) == 0
    ensures a.Invalid? && b.Valid? ==> CompareDates(a, b) > 0
    ensures a.Valid? && b.Invalid? ==> CompareDates(a, b) < 0
    ensures a.Valid? && b.Valid? ==> (CompareDates(a, b) < 0 <==> !CalendarNotAfter(a, b))
    ensures a.Valid? && b.Valid? ==> (CompareDates(a, b) == 0 <==> a.year == b.year && a.month == b.month)
  {
    if a.Valid? && b.Valid? {
      CompareDatesByRank(a, b);
      RankIsCalendarOrder(b, a);
    }
  }
}
