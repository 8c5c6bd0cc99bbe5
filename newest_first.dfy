/**
  `sortByDate`: a copy of the report list sorted by `Array.prototype.sort` with the date
  comparator. `sort` is stable, so the result is fully determined: newest first, and reports
  whose dates compare equal (the same month, or both unparseable) in their input order.

  The sorting layer is stated for any key that yields well-formed dates; `SortByDate`
  uses the key `DateOf`, the `parseDate` reading of a report's `date` field.
*/
module NewestFirstSort {
  import opened Wrappers
  import opened ReportDates

  /** Every report gets a well-formed date under `key`. */
  ghost predicate KeyWellFormed(key: Report -> ParsedDate) {
    forall r :: WellFormed(key(r))
  }

  /** No report is placed before one that the comparator puts ahead of it. */
  predicate NewestFirstBy(s: seq<Report>, key: Report -> ParsedDate) {
    forall i, j :: 0 <= i < j < |s| ==> CompareDates(key(s[i]), key(s[j])) <= 0
  }

  /** The reports of `s` whose key is `d`, in their order in `s`. */
  function Group(s: seq<Report>, key: Report -> ParsedDate, d: ParsedDate): seq<Report> {
    if s == [] then []
    else (if key(s[0]) == d then [s[0]] else []) + Group(s[1..], key, d)
  }

  /** A group holds exactly the reports of the list whose key is its date. */
  lemma {:induction false} GroupMember(s: seq<Report>, key: Report -> ParsedDate, d: ParsedDate, x: Report)
    ensures x in Group(s, key, d) <==> x in s && key(x) == d
    decreases |s|
  {
    if s != [] {
      GroupMember(s[1..], key, d, x);
      assert s == [s[0]] + s[1..];
    }
  }

  lemma {:induction false} GroupAppend(p: seq<Report>, q: seq<Report>, key: Report -> ParsedDate, d: ParsedDate)
    ensures Group(p + q, key, d) == Group(p, key, d) + Group(q, key, d)
    decreases |p|
  {
    if p == [] {
      assert p + q == q;
    } else {
      var front: seq<Report> := if key(p[0]) == d then [p[0]] else [];
      var rest := p[1..];
      assert Group(p + q, key, d) == front + Group(rest + q, key, d) by {
        assert (p + q)[0] == p[0] && (p + q)[1..] == rest + q;
      }
      assert Group(p, key, d) == front + Group(rest, key, d);
      GroupAppend(rest, q, key, d);
      var g, h := Group(rest, key, d), Group(q, key, d);
      assert front + (g + h) == (front + g) + h;
    }
  }

  /** A report occurs in its group as often as in the list. */
  lemma {:induction false} GroupCount(s: seq<Report>, key: Report -> ParsedDate, x: Report)
    ensures multiset(Group(s, key, key(x)))[x] == multiset(s)[x]
    decreases |s|
  {
    if s != [] {
      GroupCount(s[1..], key, x);
      assert s == [s[0]] + s[1..];
      var front: seq<Report> := if key(s[0]) == key(x) then [s[0]] else [];
      assert Group(s, key, key(x)) == front + Group(s[1..], key, key(x));
      assert multiset(front)[x] == multiset([s[0]])[x];
    }
  }

  /** Lists with the same groups are rearrangements of each other. */
  lemma SameGroupsSameMultiset(s: seq<Report>, t: seq<Report>, key: Report -> ParsedDate)
    requires forall d :: Group(s, key, d) == Group(t, key, d)
    ensures multiset(s) == multiset(t)
  {
    forall x
      ensures multiset(s)[x] == multiset(t)[x]
    {
      GroupCount(s, key, x);
      GroupCount(t, key, x);
    }
  }

  /** Two reports with different keys never meet in one group, so their order shows in no group. */
  lemma PairGroup(x: Report, y: Report, key: Report -> ParsedDate, d: ParsedDate)
    requires key(x) != key(y)
    ensures Group([x, y], key, d) == Group([y, x], key, d)
  {
    assert [x, y][1..] == [y] && [y, x][1..] == [x];
    assert [y][1..] == [] && [x][1..] == [];
  }

  lemma SwapKeepsGroup(s: seq<Report>, j: int, key: Report -> ParsedDate, d: ParsedDate)
    requires 0 < j < |s| && key(s[j - 1]) != key(s[j])
    ensures Group(s[j - 1 := s[j]][j := s[j - 1]], key, d) == Group(s, key, d)
  {
    var t := s[j - 1 := s[j]][j := s[j - 1]];
    var front, back := s[..j - 1], s[j + 1..];
    assert s == front + [s[j - 1], s[j]] + back;
    assert t == front + [s[j], s[j - 1]] + back;
    GroupAppend(front + [s[j - 1], s[j]], back, key, d);
    GroupAppend(front + [s[j], s[j - 1]], back, key, d);
    GroupAppend(front, [s[j - 1], s[j]], key, d);
    GroupAppend(front, [s[j], s[j - 1]], key, d);
    PairGroup(s[j - 1], s[j], key, d);
  }

  /** Exchanging two neighbours whose keys differ keeps the order within every group. */
  lemma SwapKeepsGroups(s: seq<Report>, j: int, key: Report -> ParsedDate)
    requires 0 < j < |s| && key(s[j - 1]) != key(s[j])
    ensures forall d :: Group(s[j - 1 := s[j]][j := s[j - 1]], key, d) == Group(s, key, d)
  {
    forall d
      ensures Group(s[j - 1 := s[j]][j := s[j - 1]], key, d) == Group(s, key, d)
    {
      SwapKeepsGroup(s, j, key, d);
    }
  }

  /** With the same groups, a list is empty exactly when the other one is. */
  lemma SameGroupsBothEmpty(s: seq<Report>, t: seq<Report>, key: Report -> ParsedDate)
    requires forall d :: Group(s, key, d) == Group(t, key, d)
    ensures s == [] <==> t == []
  {
    if s != [] {
      GroupMember(s, key, key(s[0]), s[0]);
      GroupMember(t, key, key(s[0]), s[0]);
    } else if t != [] {
      GroupMember(t, key, key(t[0]), t[0]);
      GroupMember(s, key, key(t[0]), t[0]);
    }
  }

  /** Two newest-first lists with the same groups start with the same report. */
  lemma SameGroupsSameHead(s: seq<Report>, t: seq<Report>, key: Report -> ParsedDate)
    requires KeyWellFormed(key)
    requires NewestFirstBy(s, key) && NewestFirstBy(t, key)
    requires forall d :: Group(s, key, d) == Group(t, key, d)
    requires s != [] && t != []
    ensures s[0] == t[0]
  {
    var d, e := key(s[0]), key(t[0]);
    GroupMember(s, key, d, s[0]);
    GroupMember(t, key, d, s[0]);
    GroupMember(t, key, e, t[0]);
    GroupMember(s, key, e, t[0]);
    var k :| 0 <= k < |t| && t[k] == s[0];
    var m :| 0 <= m < |s| && s[m] == t[0];
    assert CompareDates(e, key(t[k])) <= 0;
    assert CompareDates(d, key(s[m])) <= 0;
    CompareDatesByRank(e, d);
    CompareDatesByRank(d, e);
    assert d == e;
    assert Group(s, key, d) == [s[0]] + Group(s[1..], key, d);
    assert Group(t, key, d) == [t[0]] + Group(t[1..], key, d);
    assert Group(s, key, d)[0] == s[0] && Group(t, key, d)[0] == t[0];
    assert Group(s, key, d) == Group(t, key, d);
  }

  /** Removing the same first report from two lists with the same groups leaves the same groups. */
  lemma SameGroupsTails(s: seq<Report>, t: seq<Report>, key: Report -> ParsedDate)
    requires forall d :: Group(s, key, d) == Group(t, key, d)
    requires s != [] && t != [] && s[0] == t[0]
    ensures forall d :: Group(s[1..], key, d) == Group(t[1..], key, d)
  {
    forall d
      ensures Group(s[1..], key, d) == Group(t[1..], key, d)
    {
      var front: seq<Report> := if key(s[0]) == d then [s[0]] else [];
      assert Group(s, key, d) == front + Group(s[1..], key, d);
      assert Group(t, key, d) == front + Group(t[1..], key, d);
      assert Group(s[1..], key, d) == Group(s, key, d)[|front|..];
      assert Group(t[1..], key, d) == Group(t, key, d)[|front|..];
    }
  }

  /**
    A newest-first order that keeps every group's input order is unique: two such
    arrangements of the same groups are equal. This is why the stable `sort` has one
    possible outcome.
  */
  lemma {:induction false} NewestFirstUnique(s: seq<Report>, t: seq<Report>, key: Report -> ParsedDate)
    requires KeyWellFormed(key)
    requires NewestFirstBy(s, key) && NewestFirstBy(t, key)
    requires forall d :: Group(s, key, d) == Group(t, key, d)
    ensures s == t
    decreases |s|
  {
    SameGroupsBothEmpty(s, t, key);
    if s != [] {
      SameGroupsSameHead(s, t, key);
      SameGroupsTails(s, t, key);
      assert NewestFirstBy(s[1..], key) && NewestFirstBy(t[1..], key) by {
        forall i, j | 0 <= i < j < |s| - 1
          ensures CompareDates(key(s[1..][i]), key(s[1..][j])) <= 0
        {
          assert s[1..][i] == s[i + 1] && s[1..][j] == s[j + 1];
        }
        forall i, j | 0 <= i < j < |t| - 1
          ensures CompareDates(key(t[1..][i]), key(t[1..][j])) <= 0
        {
          assert t[1..][i] == t[i + 1] && t[1..][j] == t[j + 1];
        }
      }
      NewestFirstUnique(s[1..], t[1..], key);
      assert s == [s[0]] + s[1..] && t == [t[0]] + t[1..];
    }
  }

  /** The first `n` reports of `s` are in non-increasing rank order. */
  predicate RankedPrefix(s: seq<Report>, n: int, key: Report -> ParsedDate)
    requires 0 <= n <= |s|
  {
    forall k, l :: 0 <= k < l < n ==> Rank(key(s[l])) <= Rank(key(s[k]))
  }

  /**
    Ranking while report `j` travels towards the front: the prefix up to `i` is in order
    except for report `j`, and report `j` outranks every report after it up to `i`.
  */
  predicate InsertionRanking(s: seq<Report>, i: int, j: int, key: Report -> ParsedDate)
    requires 0 <= j <= i < |s|
  {
    (forall k, l :: 0 <= k < l <= i && k != j && l != j ==> Rank(key(s[l])) <= Rank(key(s[k])))
    && (forall l :: j < l <= i ==> Rank(key(s[l])) < Rank(key(s[j])))
  }

  /** Exchanging report `j` with a lower-ranked neighbour moves it one place forward. */
  lemma InsertionSwap(s: seq<Report>, i: int, j: int, key: Report -> ParsedDate)
    requires 0 < j <= i < |s| && InsertionRanking(s, i, j, key)
    requires Rank(key(s[j - 1])) < Rank(key(s[j]))
    ensures InsertionRanking(s[j - 1 := s[j]][j := s[j - 1]], i, j - 1, key)
  {
    var t := s[j - 1 := s[j]][j := s[j - 1]];
    forall k, l | 0 <= k < l <= i && k != j - 1 && l != j - 1
      ensures Rank(key(t[l])) <= Rank(key(t[k]))
    {
      if l == j {
        assert t[l] == s[j - 1];
      } else if k == j {
        assert t[k] == s[j - 1];
      }
    }
  }

  /**
    Where the insertion stops, the prefix up to the inserted report is in order: the report
    at `j` is outranked by all before it and outranks all after it up to `i`.
  */
  lemma InsertionStops(s: seq<Report>, i: int, j: int, key: Report -> ParsedDate)
    requires 0 <= j <= i < |s| && InsertionRanking(s, i, j, key)
    requires 0 < j ==> Rank(key(s[j])) <= Rank(key(s[j - 1]))
    ensures RankedPrefix(s, i + 1, key)
  {
    forall k, l | 0 <= k < l <= i
      ensures Rank(key(s[l])) <= Rank(key(s[k]))
    {
      if k < j <= l {
        if k < j - 1 {
          assert Rank(key(s[j - 1])) <= Rank(key(s[k]));
        }
        if j < l {
          assert Rank(key(s[l])) < Rank(key(s[j]));
        }
      }
    }
  }

  /**
    One step of the insertion sort: the report at `i` moves towards the front, exchanged
    with its neighbour while the comparator says that neighbour sorts strictly after it.
  */
  method InsertNext(a: array<Report>, i: int, key: Report -> ParsedDate)
    requires KeyWellFormed(key)
    requires 0 <= i < a.Length && RankedPrefix(a[..], i, key)
    modifies a
    ensures RankedPrefix(a[..], i + 1, key)
    ensures forall d :: Group(a[..], key, d) == Group(old(a[..]), key, d)
  {
    var j := i;
    while 0 < j && CompareDates(key(a[j - 1]), key(a[j])) > 0
      invariant 0 <= j <= i
      invariant InsertionRanking(a[..], i, j, key)
      invariant forall d :: Group(a[..], key, d) == Group(old(a[..]), key, d)
    {
      CompareDatesByRank(key(a[j - 1]), key(a[j]));
      ghost var before := a[..];
      a[j - 1], a[j] := a[j], a[j - 1];
      assert a[..] == before[j - 1 := before[j]][j := before[j - 1]];
      SwapKeepsGroups(before, j, key);
      InsertionSwap(before, i, j, key);
      j := j - 1;
    }
    if 0 < j {
      CompareDatesByRank(key(a[j - 1]), key(a[j]));
    }
    InsertionStops(a[..], i, j, key);
  }

  /**
    Sorts `a` in place with a stable insertion sort that asks the comparator about
    neighbours only.
  */
  method SortInPlace(a: array<Report>, key: Report -> ParsedDate)
    requires KeyWellFormed(key)
    modifies a
    ensures NewestFirstBy(a[..], key)
    ensures multiset(a[..]) == multiset(old(a[..]))
    ensures forall d :: Group(a[..], key, d) == Group(old(a[..]), key, d)
  {
    var i := 0;
    while i < a.Length
      invariant 0 <= i <= a.Length
      invariant RankedPrefix(a[..], i, key)
      invariant forall d :: Group(a[..], key, d) == Group(old(a[..]), key, d)
    {
      InsertNext(a, i, key);
      i := i + 1;
    }
    SameGroupsSameMultiset(a[..], old(a[..]), key);
    forall k, l | 0 <= k < l < a.Length
      ensures CompareDates(key(a[..][k]), key(a[..][l])) <= 0
    {
      CompareDatesByRank(key(a[k]), key(a[l]));
    }
  }

  /** `a` is `b` with some entries left out, the rest in the same order. */
  predicate SubsequenceOf(a: seq<Report>, b: seq<Report>)
    decreases |b|
  {
    if a == [] then true
    else if b == [] then false
    else if a[0] == b[0] then SubsequenceOf(a[1..], b[1..])
    else SubsequenceOf(a, b[1..])
  }

  /** Adding an entry in front keeps a subsequence a subsequence. */
  lemma {:induction false} SubsequenceSkip(a: seq<Report>, b: seq<Report>)
    requires b != [] && SubsequenceOf(a, b[1..])
    ensures SubsequenceOf(a, b)
    decreases |a| + |b|
  {
    if a != [] && a[0] == b[0] {
      SubsequenceTail(a, b[1..]);
    }
  }

  /** Dropping the first entry of a subsequence leaves a subsequence. */
  lemma {:induction false} SubsequenceTail(a: seq<Report>, b: seq<Report>)
    requires a != [] && SubsequenceOf(a, b)
    ensures SubsequenceOf(a[1..], b)
    decreases |a| + |b|
  {
    if a[0] == b[0] {
      SubsequenceSkip(a[1..], b);
    } else {
      SubsequenceTail(a, b[1..]);
      SubsequenceSkip(a[1..], b);
    }
  }

  /** Every entry of a subsequence is an entry of the list. */
  lemma {:induction false} SubsequenceMember(a: seq<Report>, b: seq<Report>, x: Report)
    requires SubsequenceOf(a, b) && x in a
    ensures x in b
    decreases |b|
  {
    if a[0] == b[0] {
      if x != a[0] {
        assert x in a[1..];
        SubsequenceMember(a[1..], b[1..], x);
      }
    } else {
      SubsequenceMember(a, b[1..], x);
    }
  }

  /** Leaving entries out of a newest-first list keeps it newest first. */
  lemma {:induction false} SubsequenceKeepsOrder(a: seq<Report>, b: seq<Report>, key: Report -> ParsedDate)
    requires SubsequenceOf(a, b) && NewestFirstBy(b, key)
    ensures NewestFirstBy(a, key)
    decreases |b|
  {
    if a != [] {
      assert NewestFirstBy(b[1..], key) by {
        forall i, j | 0 <= i < j < |b| - 1
          ensures CompareDates(key(b[1..][i]), key(b[1..][j])) <= 0
        {
          assert b[1..][i] == b[i + 1] && b[1..][j] == b[j + 1];
        }
      }
      if a[0] == b[0] {
        SubsequenceKeepsOrder(a[1..], b[1..], key);
        forall i, j | 0 <= i < j < |a|
          ensures CompareDates(key(a[i]), key(a[j])) <= 0
        {
          if i == 0 {
            assert a[j] in a[1..];
            SubsequenceMember(a[1..], b[1..], a[j]);
            var m :| 0 <= m < |b| - 1 && b[1..][m] == a[j];
            assert b[m + 1] == a[j];
          } else {
            assert a[i] == a[1..][i - 1] && a[j] == a[1..][j - 1];
          }
        }
      } else {
        SubsequenceKeepsOrder(a, b[1..], key);
      }
    }
  }

  /** Reports in newest-first order of their `parseDate` dates. */
  predicate NewestFirst(s: seq<Report>) {
    NewestFirstBy(s, DateOf)
  }

  /**
    `sorted` is what a stable newest-first sort of `items` yields: newest first, and each
    date's reports in their order in `items`.
  */
  ghost predicate StableNewestFirst(sorted: seq<Report>, items: seq<Report>) {
    NewestFirst(sorted) && forall d :: Group(sorted, DateOf, d) == Group(items, DateOf, d)
  }

  /** A stable newest-first ordering of a list is unique: the sort leaves nothing to chance. */
  lemma StableNewestFirstUnique(s: seq<Report>, t: seq<Report>, items: seq<Report>)
    requires StableNewestFirst(s, items) && StableNewestFirst(t, items)
    ensures s == t
  {
    NewestFirstUnique(s, t, DateOf);
  }

  /**
    `sortByDate`: sorts a copy of `items` newest first. The result is a rearrangement of
    the input; parseable dates come first, in non-increasing (year, month) order, the
    unparseable ones last; reports with equal dates, and the unparseable reports, keep
    their input order; a list already newest first comes back unchanged.
  */
  method SortByDate(items: seq<Report>) returns (sorted: seq<Report>)
    ensures |sorted| == |items| && multiset(sorted) == multiset(items)
    ensures NewestFirst(sorted)
    ensures forall i, j :: 0 <= i < j < |sorted| && DateOf(sorted[i]).Invalid? ==> DateOf(sorted[j]).Invalid?
    ensures forall i, j :: 0 <= i < j < |sorted| && DateOf(sorted[j]).Valid? ==>
              DateOf(sorted[i]).Valid? && CalendarNotAfter(DateOf(sorted[j]), DateOf(sorted[i]))
    ensures StableNewestFirst(sorted, items)
    ensures NewestFirst(items) ==> sorted == items
  {
    var a := new Report[|items|](k requires 0 <= k < |items| => items[k]);
    assert a[..] == items;
    SortInPlace(a, DateOf);
    sorted := a[..];
    assert |sorted| == |multiset(sorted)| == |multiset(items)| == |items|;
    forall i, j | 0 <= i < j < |sorted| && DateOf(sorted[j]).Valid?
      ensures DateOf(sorted[i]).Valid? && CalendarNotAfter(DateOf(sorted[j]), DateOf(sorted[i]))
    {
      assert CompareDates(DateOf(sorted[i]), DateOf(sorted[j])) <= 0;
      CompareDatesByRank(DateOf(sorted[i]), DateOf(sorted[j]));
      RankIsCalendarOrder(DateOf(sorted[i]), DateOf(sorted[j]));
    }
    if NewestFirst(items) {
      NewestFirstUnique(sorted, items, DateOf);
    }
  }

  /**
    The list a page keeps after a fetch: the stable newest-first sort of what the reports
    endpoint returned, or the current list when the request failed (`None`).
  */
  method FetchedList(current: seq<Report>, data: Option<seq<Report>>) returns (next: seq<Report>)
    ensures NewestFirst(current) ==> NewestFirst(next)
    ensures data.Some? ==> StableNewestFirst(next, data.value) && multiset(next) == multiset(data.value)
    ensures data.None? ==> next == current
  {
    next := current;
    if data.Some? {
      next := SortByDate(data.value);
    }
  }
}
