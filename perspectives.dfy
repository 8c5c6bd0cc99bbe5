/**
  The Perspectives page: on mount it fetches every report, keeps them sorted newest first,
  and shows the first six as article cards.
*/
module Perspectives {
  import opened Wrappers
  import opened ReportDates
  import opened NewestFirstSort

  /** How many cards the page shows at most. */
  const CardCount: nat := 6

  /** `reports.slice(0, 6)`: the leading reports of the list, at most six of them. */
  function Featured(reports: seq<Report>): (cards: seq<Report>)
    ensures |cards| == if |reports| < CardCount then |reports| else CardCount
    ensures forall i :: 0 <= i < |cards| ==> cards[i] == reports[i]
    ensures |reports| < CardCount ==> cards == reports
  {
    if |reports| < CardCount then reports else reports[..CardCount]
  }

  /**
    On a newest-first list the cards are the newest reports: no report left off the page
    is newer than any card, and a card with an unparseable date is shown only when no
    report with a parseable date is left off.
  */
  lemma FeaturedAreNewest(reports: seq<Report>)
    requires NewestFirst(reports)
    ensures forall c, r :: c in Featured(reports) && r in reports[|Featured(reports)|..] ==>
              Rank(DateOf(r)) <= Rank(DateOf(c))
    ensures forall c, r :: c in Featured(reports) && r in reports[|Featured(reports)|..] && DateOf(c).Invalid? ==>
              DateOf(r).Invalid?
  {
    var cards := Featured(reports);
    var k := |cards|;
    forall c, r | c in cards && r in reports[k..]
      ensures Rank(DateOf(r)) <= Rank(DateOf(c))
      ensures DateOf(c).Invalid? ==> DateOf(r).Invalid?
    {
      var i :| 0 <= i < k && cards[i] == c;
      var j :| k <= j < |reports| && reports[j] == r;
      assert CompareDates(DateOf(reports[i]), DateOf(reports[j])) <= 0;
      CompareDatesByRank(DateOf(c), DateOf(r));
    }
  }

  /** The page's state: the list it shows and whether the fetch is still under way. */
  class PerspectivesPage {
    var reports: seq<Report>
    var loading: bool

    /** The page starts out loading, with no reports. */
    constructor ()
      ensures reports == [] && loading
      ensures Valid()
    {
      reports := [];
      loading := true;
    }

    /** The list the page keeps is always newest first. */
    predicate Valid()
      reads this
    {
      NewestFirst(reports)
    }

    /**
      The fetch effect, given what the reports endpoint returned (`None` when the request
      failed): a successful fetch replaces the list by its stable newest-first sort, a failed
      one keeps the list, and either way loading ends.
    */
    method FetchReports(data: Option<seq<Report>>)
      requires Valid()
      modifies this
      ensures Valid()
      ensures !loading
      ensures data.Some? ==> StableNewestFirst(reports, data.value) && multiset(reports) == multiset(data.value)
      ensures data.None? ==> reports == old(reports)
    {
      reports := FetchedList(reports, data);
      loading := false;
    }

    /** The cards rendered: the first six reports of the list. */
    function Cards(): (cards: seq<Report>)
      reads this
      ensures |cards| <= CardCount && |cards| <= |reports| && cards == reports[..|cards|]
      ensures |reports| >= CardCount ==> |cards| == CardCount
      ensures |reports| < CardCount ==> cards == reports
    {
      Featured(reports)
    }
  }
}
