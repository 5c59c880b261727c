/**
  `group_pages_by_date`: the pages of one PDF, each carrying the trading
  date found on it (or none), are cut into runs of consecutive dated pages
  that share a date.  Pages without a date belong to no run and do not
  interrupt one.
*/
module Grouping {
  import opened Wrappers

  /** One run: a date and the indices of its pages, in increasing order. */
  datatype Group = Group(date: string, pages: seq<nat>)

  // ---------------------------------------------------------------------------
  // The reference description

  /** The indices of the dated pages, in increasing order. */
  function DatedIndices(dates: seq<Option<string>>): (ix: seq<nat>)
    ensures forall m :: 0 <= m < |ix| ==> ix[m] < |dates| && dates[ix[m]].Some?
    decreases |dates|
  {
    if dates == [] then []
    else
      var n := |dates| - 1;
      DatedIndices(dates[..n]) + (if dates[n].Some? then [n] else [])
  }

  /** All page lists, one after the other. */
  function Flatten(gs: seq<Group>): seq<nat>
    decreases |gs|
  {
    if gs == [] then [] else Flatten(gs[..|gs| - 1]) + gs[|gs| - 1].pages
  }

  /** No run is empty. */
  ghost predicate NonEmptyRuns(gs: seq<Group>) {
    forall k :: 0 <= k < |gs| ==> gs[k].pages != []
  }

  /** Every page of a run is a page of the document and carries the run's date. */
  ghost predicate PagesCarryDate(dates: seq<Option<string>>, gs: seq<Group>) {
    forall k, m :: 0 <= k < |gs| && 0 <= m < |gs[k].pages| ==>
      gs[k].pages[m] < |dates| && dates[gs[k].pages[m]] == Some(gs[k].date)
  }

  /** Neighbouring runs have different dates. */
  ghost predicate Alternating(gs: seq<Group>) {
    forall k :: 0 < k < |gs| ==> gs[k - 1].date != gs[k].date
  }

  /**
    What a grouping of `dates` must be: no run is empty, every page of a run
    carries the run's date, neighbouring runs have different dates, and the
    runs read one after the other give exactly the dated pages in order.
  */
  ghost predicate IsDateGrouping(dates: seq<Option<string>>, gs: seq<Group>) {
    && NonEmptyRuns(gs)
    && PagesCarryDate(dates, gs)
    && Alternating(gs)
    && Flatten(gs) == DatedIndices(dates)
  }

  // ---------------------------------------------------------------------------
  // The grouping the loop computes, page by page

  /**
    One step of the loop: page `n` with date `date` joins the last run when
    it carries that run's date, opens a new run when it carries another
    date, and is skipped when it carries none.
  */
  function AddPage(gs: seq<Group>, n: nat, date: Option<string>): seq<Group> {
    match date
    case None => gs
    case Some(d) =>
      if gs != [] && gs[|gs| - 1].date == d then
        gs[..|gs| - 1] + [Group(d, gs[|gs| - 1].pages + [n])]
      else
        gs + [Group(d, [n])]
  }

  /** The runs of `dates`: every page added in turn, as the loop adds them. */
  function Runs(dates: seq<Option<string>>): seq<Group>
    decreases |dates|
  {
    if dates == [] then []
    else AddPage(Runs(dates[..|dates| - 1]), |dates| - 1, dates[|dates| - 1])
  }

  lemma FlattenSnoc(gs: seq<Group>, g: Group)
    ensures Flatten(gs + [g]) == Flatten(gs) + g.pages
  {
    assert (gs + [g])[..|gs|] == gs;
  }

  /** A page listed in some run is one of the flattened pages. */
  lemma {:induction false} InFlatten(gs: seq<Group>, k: nat, m: nat)
    requires k < |gs| && m < |gs[k].pages|
    ensures gs[k].pages[m] in Flatten(gs)
    decreases |gs|
  {
    if k < |gs| - 1 {
      InFlatten(gs[..|gs| - 1], k, m);
    } else {
      assert Flatten(gs) == Flatten(gs[..|gs| - 1]) + gs[k].pages;
    }
  }

  lemma DatedBelow(dates: seq<Option<string>>, x: nat)
    requires x in DatedIndices(dates)
    ensures x < |dates|
  {
    var m :| 0 <= m < |DatedIndices(dates)| && DatedIndices(dates)[m] == x;
  }

  /** The dated indices are strictly increasing and are exactly the pages that carry a date. */
  lemma {:induction false} DatedIndicesExact(dates: seq<Option<string>>)
    ensures forall a, b :: 0 <= a < b < |DatedIndices(dates)| ==> DatedIndices(dates)[a] < DatedIndices(dates)[b]
    ensures forall x :: 0 <= x < |dates| && dates[x].Some? ==> x in DatedIndices(dates)
    decreases |dates|
  {
    if dates != [] {
      var n := |dates| - 1;
      var pre := dates[..n];
      DatedIndicesExact(pre);
      forall x | 0 <= x < n && dates[x].Some? ensures x in DatedIndices(pre) {
        assert pre[x] == dates[x];
      }
    }
  }

  // ---------------------------------------------------------------------------
  // The computed grouping meets the description

  /** Pages below `|pre|` that carried a date in `pre` carry it in any extension of `pre`. */
  lemma PagesCarryDateExtend(pre: seq<Option<string>>, dates: seq<Option<string>>, gs: seq<Group>)
    requires pre <= dates
    requires PagesCarryDate(pre, gs)
    ensures PagesCarryDate(dates, gs)
  {
    forall k, m | 0 <= k < |gs| && 0 <= m < |gs[k].pages|
      ensures gs[k].pages[m] < |dates| && dates[gs[k].pages[m]] == Some(gs[k].date)
    {
      assert pre[gs[k].pages[m]] == dates[gs[k].pages[m]];
    }
  }

  /** An undated last page changes nothing. */
  lemma SkipStep(dates: seq<Option<string>>, gs: seq<Group>)
    requires dates != [] && dates[|dates| - 1].None?
    requires IsDateGrouping(dates[..|dates| - 1], gs)
    ensures IsDateGrouping(dates, gs)
  {
    var n := |dates| - 1;
    assert DatedIndices(dates) == DatedIndices(dates[..n]) + [];
    PagesCarryDateExtend(dates[..n], dates, gs);
  }

  /** Appending a run keeps the conditions on the runs before it. */
  lemma SnocRuns(dates: seq<Option<string>>, gs: seq<Group>, g: Group)
    requires NonEmptyRuns(gs) && PagesCarryDate(dates, gs) && Alternating(gs)
    requires g.pages != []
    requires forall m :: 0 <= m < |g.pages| ==> g.pages[m] < |dates| && dates[g.pages[m]] == Some(g.date)
    requires gs == [] || gs[|gs| - 1].date != g.date
    ensures NonEmptyRuns(gs + [g]) && PagesCarryDate(dates, gs + [g]) && Alternating(gs + [g])
  {
    var gs' := gs + [g];
    forall k | 0 <= k < |gs'| ensures gs'[k].pages != [] {
      if k < |gs| { assert gs'[k] == gs[k]; }
    }
    forall k, m | 0 <= k < |gs'| && 0 <= m < |gs'[k].pages|
      ensures gs'[k].pages[m] < |dates| && dates[gs'[k].pages[m]] == Some(gs'[k].date)
    {
      if k < |gs| { assert gs'[k] == gs[k]; }
    }
    forall k | 0 < k < |gs'| ensures gs'[k - 1].date != gs'[k].date {
      if k < |gs| { assert gs'[k] == gs[k] && gs'[k - 1] == gs[k - 1]; }
    }
  }

  /** The runs before the last one keep the conditions on runs. */
  lemma InitRuns(dates: seq<Option<string>>, gs: seq<Group>)
    requires gs != []
    requires NonEmptyRuns(gs) && PagesCarryDate(dates, gs) && Alternating(gs)
    ensures NonEmptyRuns(gs[..|gs| - 1]) && PagesCarryDate(dates, gs[..|gs| - 1]) && Alternating(gs[..|gs| - 1])
  {
    var init := gs[..|gs| - 1];
    forall k | 0 <= k < |init| ensures init[k].pages != [] {
      assert init[k] == gs[k];
    }
    forall k, m | 0 <= k < |init| && 0 <= m < |init[k].pages|
      ensures init[k].pages[m] < |dates| && dates[init[k].pages[m]] == Some(init[k].date)
    {
      assert init[k] == gs[k];
    }
    forall k | 0 < k < |init| ensures init[k - 1].date != init[k].date {
      assert init[k] == gs[k] && init[k - 1] == gs[k - 1];
    }
  }

  /** A dated last page with a new date opens a run of its own. */
  lemma OpenStep(dates: seq<Option<string>>, gs: seq<Group>, d: string)
    requires dates != [] && dates[|dates| - 1] == Some(d)
    requires IsDateGrouping(dates[..|dates| - 1], gs)
    requires gs == [] || gs[|gs| - 1].date != d
    ensures IsDateGrouping(dates, gs + [Group(d, [|dates| - 1])])
  {
    var n := |dates| - 1;
    FlattenSnoc(gs, Group(d, [n]));
    PagesCarryDateExtend(dates[..n], dates, gs);
    SnocRuns(dates, gs, Group(d, [n]));
    assert DatedIndices(dates) == DatedIndices(dates[..n]) + [n];
  }

  /** A dated last page with the last run's date extends that run. */
  lemma ExtendStep(dates: seq<Option<string>>, gs: seq<Group>, d: string)
    requires dates != [] && dates[|dates| - 1] == Some(d)
    requires IsDateGrouping(dates[..|dates| - 1], gs)
    requires gs != [] && gs[|gs| - 1].date == d
    ensures IsDateGrouping(dates, gs[..|gs| - 1] + [Group(d, gs[|gs| - 1].pages + [|dates| - 1])])
  {
    var n := |dates| - 1;
    var init := gs[..|gs| - 1];
    var last := gs[|gs| - 1];
    var g := Group(d, last.pages + [n]);
    assert init + [last] == gs;
    FlattenSnoc(init, last);
    FlattenSnoc(init, g);
    assert Flatten(init + [g]) == Flatten(gs) + [n];
    assert DatedIndices(dates) == DatedIndices(dates[..n]) + [n];
    PagesCarryDateExtend(dates[..n], dates, gs);
    InitRuns(dates, gs);
    RunCarriesDate(dates, gs, g);
    if init != [] {
      assert init[|init| - 1] == gs[|gs| - 2];
    }
    SnocRuns(dates, init, g);
  }

  /** The last run with the last page added still carries its date on every page. */
  lemma RunCarriesDate(dates: seq<Option<string>>, gs: seq<Group>, g: Group)
    requires dates != [] && gs != [] && PagesCarryDate(dates, gs)
    requires g == Group(gs[|gs| - 1].date, gs[|gs| - 1].pages + [|dates| - 1])
    requires dates[|dates| - 1] == Some(g.date)
    ensures forall m :: 0 <= m < |g.pages| ==> g.pages[m] < |dates| && dates[g.pages[m]] == Some(g.date)
  {
    var last := gs[|gs| - 1];
    forall m | 0 <= m < |g.pages| ensures g.pages[m] < |dates| && dates[g.pages[m]] == Some(g.date) {
      if m < |last.pages| { assert g.pages[m] == last.pages[m]; }
    }
  }

  /** The runs of `dates` are a grouping of `dates` in the sense above. */
  lemma {:induction false} RunsAreDateGrouping(dates: seq<Option<string>>)
    ensures IsDateGrouping(dates, Runs(dates))
    decreases |dates|
  {
    if dates != [] {
      var n := |dates| - 1;
      var gs := Runs(dates[..n]);
      RunsAreDateGrouping(dates[..n]);
      match dates[n]
      case None => SkipStep(dates, gs);
      case Some(d) =>
        if gs != [] && gs[|gs| - 1].date == d {
          ExtendStep(dates, gs, d);
        } else {
          OpenStep(dates, gs, d);
        }
    }
  }

  // ---------------------------------------------------------------------------
  // The description determines the grouping

  lemma SnocCancel(a: seq<nat>, b: seq<nat>, x: nat, y: nat)
    requires a + [x] == b + [y]
    ensures a == b && x == y
  {
    assert |a| == |b|;
    assert a == (a + [x])[..|a|];
    assert b == (b + [y])[..|b|];
    assert (a + [x])[|a|] == x;
  }

  /** Runs over the dated pages of `pre` carry the dates of `pre` once they carry those of its extension. */
  lemma PagesCarryDateShrink(pre: seq<Option<string>>, dates: seq<Option<string>>, gs: seq<Group>)
    requires pre <= dates
    requires PagesCarryDate(dates, gs)
    requires Flatten(gs) == DatedIndices(pre)
    ensures PagesCarryDate(pre, gs)
  {
    forall k, m | 0 <= k < |gs| && 0 <= m < |gs[k].pages|
      ensures gs[k].pages[m] < |pre| && pre[gs[k].pages[m]] == Some(gs[k].date)
    {
      InFlatten(gs, k, m);
      DatedBelow(pre, gs[k].pages[m]);
    }
  }

  /** When the last page is dated `d`, the last run has date `d` and ends with that page. */
  lemma LastRunEndsAtLastPage(dates: seq<Option<string>>, gs: seq<Group>, d: string)
    requires dates != [] && dates[|dates| - 1] == Some(d)
    requires IsDateGrouping(dates, gs)
    ensures gs != []
    ensures gs[|gs| - 1].date == d
    ensures gs[|gs| - 1].pages[|gs[|gs| - 1].pages| - 1] == |dates| - 1
    ensures Flatten(gs[..|gs| - 1]) + gs[|gs| - 1].pages[..|gs[|gs| - 1].pages| - 1]
         == DatedIndices(dates[..|dates| - 1])
  {
    var n := |dates| - 1;
    assert DatedIndices(dates) == DatedIndices(dates[..n]) + [n];
    assert gs != [];
    var last := gs[|gs| - 1];
    var q := |last.pages| - 1;
    var init := Flatten(gs[..|gs| - 1]);
    assert last.pages == last.pages[..q] + [last.pages[q]];
    assert Flatten(gs) == (init + last.pages[..q]) + [last.pages[q]];
    SnocCancel(init + last.pages[..q], DatedIndices(dates[..n]), last.pages[q], n);
  }

  /** Removing the last page from its run gives a grouping of the shorter document. */
  lemma DropLastPage(dates: seq<Option<string>>, gs: seq<Group>, d: string) returns (gs': seq<Group>)
    requires dates != [] && dates[|dates| - 1] == Some(d)
    requires IsDateGrouping(dates, gs)
    ensures gs != [] && gs[|gs| - 1].date == d
    ensures IsDateGrouping(dates[..|dates| - 1], gs')
    ensures |gs[|gs| - 1].pages| == 1 ==> gs' == gs[..|gs| - 1]
    ensures |gs[|gs| - 1].pages| > 1 ==>
      gs' == gs[..|gs| - 1] + [Group(d, gs[|gs| - 1].pages[..|gs[|gs| - 1].pages| - 1])]
  {
    var n := |dates| - 1;
    LastRunEndsAtLastPage(dates, gs, d);
    var init := gs[..|gs| - 1];
    var last := gs[|gs| - 1];
    var q := |last.pages| - 1;
    InitRuns(dates, gs);
    if q == 0 {
      gs' := init;
      assert Flatten(init) + [] == Flatten(init);
    } else {
      var g0 := Group(d, last.pages[..q]);
      gs' := init + [g0];
      forall m | 0 <= m < |g0.pages| ensures g0.pages[m] < |dates| && dates[g0.pages[m]] == Some(g0.date) {
        assert g0.pages[m] == gs[|gs| - 1].pages[m];
      }
      if init != [] {
        assert init[|init| - 1] == gs[|gs| - 2];
      }
      SnocRuns(dates, init, g0);
      FlattenSnoc(init, g0);
    }
    PagesCarryDateShrink(dates[..n], dates, gs');
  }

  /** Any grouping in the sense of the description is the one `Runs` computes. */
  lemma {:induction false} DateGroupingUnique(dates: seq<Option<string>>, gs: seq<Group>)
    requires IsDateGrouping(dates, gs)
    ensures gs == Runs(dates)
    decreases |dates|
  {
    if dates != [] {
      var n := |dates| - 1;
      var pre := dates[..n];
      match dates[n]
      case None =>
        assert DatedIndices(dates) == DatedIndices(pre) + [];
        PagesCarryDateShrink(pre, dates, gs);
        DateGroupingUnique(pre, gs);
      case Some(d) =>
        var gs' := DropLastPage(dates, gs, d);
        DateGroupingUnique(pre, gs');
        LastRunEndsAtLastPage(dates, gs, d);
        RegrowLast(gs, gs', n, d);
    }
  }

  /** Adding the last page back to the grouping it was removed from restores that grouping. */
  lemma RegrowLast(gs: seq<Group>, gs': seq<Group>, n: nat, d: string)
    requires gs != [] && Alternating(gs)
    requires gs[|gs| - 1].date == d && gs[|gs| - 1].pages != []
    requires gs[|gs| - 1].pages[|gs[|gs| - 1].pages| - 1] == n
    requires |gs[|gs| - 1].pages| == 1 ==> gs' == gs[..|gs| - 1]
    requires |gs[|gs| - 1].pages| > 1 ==>
      gs' == gs[..|gs| - 1] + [Group(d, gs[|gs| - 1].pages[..|gs[|gs| - 1].pages| - 1])]
    ensures AddPage(gs', n, Some(d)) == gs
  {
    var init := gs[..|gs| - 1];
    var last := gs[|gs| - 1];
    var q := |last.pages| - 1;
    assert init + [last] == gs;
    if q == 0 {
      assert last == Group(d, [n]);
      if init != [] {
        assert init[|init| - 1] == gs[|gs| - 2];
      }
    } else {
      assert last.pages[..q] + [n] == last.pages;
      assert gs'[..|gs'| - 1] == init;
    }
  }

  // ---------------------------------------------------------------------------
  // Runs that recur after another date stay apart

  /** Every page of every run comes before page `n`. */
  ghost predicate PagesBelow(gs: seq<Group>, n: nat) {
    forall g, m :: 0 <= g < |gs| && 0 <= m < |gs[g].pages| ==> gs[g].pages[m] < n
  }

  /**
    The last run holds consecutive dated pages: none of its pages comes
    before its first one, and from its first page on every dated page
    carries its date.
  */
  ghost predicate LastRunContiguous(dates: seq<Option<string>>, gs: seq<Group>) {
    gs != [] ==>
      var last := gs[|gs| - 1];
      && last.pages != []
      && (forall m :: 0 <= m < |last.pages| ==> last.pages[0] <= last.pages[m])
      && (forall x :: last.pages[0] <= x < |dates| && dates[x].Some? ==> dates[x] == Some(last.date))
  }

  lemma PagesBelowOfCarry(dates: seq<Option<string>>, gs: seq<Group>)
    requires PagesCarryDate(dates, gs)
    ensures PagesBelow(gs, |dates|)
  {
  }

  lemma AddPageContiguous(dates: seq<Option<string>>, gs: seq<Group>)
    requires dates != []
    requires LastRunContiguous(dates[..|dates| - 1], gs) && PagesBelow(gs, |dates| - 1)
    ensures LastRunContiguous(dates, AddPage(gs, |dates| - 1, dates[|dates| - 1]))
  {
    var n := |dates| - 1;
    forall x | 0 <= x < n ensures dates[..n][x] == dates[x] { }
    if gs != [] {
      assert gs[|gs| - 1].pages[0] < n;
    }
  }

  /** The runs of every document have a contiguous last run. */
  lemma {:induction false} RunsLastContiguous(dates: seq<Option<string>>)
    ensures LastRunContiguous(dates, Runs(dates))
    decreases |dates|
  {
    if dates != [] {
      var n := |dates| - 1;
      RunsLastContiguous(dates[..n]);
      RunsAreDateGrouping(dates[..n]);
      PagesBelowOfCarry(dates[..n], Runs(dates[..n]));
      AddPageContiguous(dates, Runs(dates[..n]));
    }
  }

  /** No run holds both page `i` and page `k`. */
  ghost predicate Apart(gs: seq<Group>, i: nat, k: nat) {
    forall g :: 0 <= g < |gs| ==> !(i in gs[g].pages && k in gs[g].pages)
  }

  /** Adding a later page keeps two earlier pages apart. */
  lemma AddPageKeepsApart(gs: seq<Group>, n: nat, date: Option<string>, i: nat, k: nat)
    requires i < n && k < n && PagesBelow(gs, n) && Apart(gs, i, k)
    ensures Apart(AddPage(gs, n, date), i, k)
  {
    var gs' := AddPage(gs, n, date);
    forall g | 0 <= g < |gs'| ensures !(i in gs'[g].pages && k in gs'[g].pages) {
      if g < |gs| && gs'[g] != gs[g] {
        assert gs'[g].pages == gs[g].pages + [n];
      }
    }
  }

  /**
    The page added last, dated `d`, is kept apart from an earlier page `i`
    dated `d` whenever a page between them carries another date.
  */
  lemma AddPageSeparates(dates: seq<Option<string>>, gs: seq<Group>, i: nat, j: nat, d: string, e: string)
    requires dates != [] && i < j < |dates| - 1
    requires dates[|dates| - 1] == Some(d) && dates[j] == Some(e) && e != d
    requires LastRunContiguous(dates[..|dates| - 1], gs) && PagesBelow(gs, |dates| - 1)
    ensures Apart(AddPage(gs, |dates| - 1, dates[|dates| - 1]), i, |dates| - 1)
  {
    var n := |dates| - 1;
    assert dates[..n][j] == dates[j];
    var gs' := AddPage(gs, n, dates[n]);
    forall g | 0 <= g < |gs'| ensures !(i in gs'[g].pages && n in gs'[g].pages) {
      if g < |gs| - 1 {
        assert gs'[g] == gs[g];
      } else if g == |gs| - 1 && gs'[g] != gs[g] {
        var last := gs[g];
        assert gs'[g].pages == last.pages + [n];
      } else if g < |gs| {
        assert gs'[g] == gs[g];
      }
    }
  }

  /**
    Two pages with the same date separated by a page with another date are
    never in the same run: a date that comes back starts a run of its own.
  */
  lemma {:induction false} RunsNeverMerged(dates: seq<Option<string>>, i: nat, j: nat, k: nat, d: string, e: string)
    requires i < j < k < |dates|
    requires dates[i] == Some(d) && dates[j] == Some(e) && dates[k] == Some(d) && e != d
    ensures Apart(Runs(dates), i, k)
    decreases |dates|
  {
    var n := |dates| - 1;
    var pre := dates[..n];
    RunsAreDateGrouping(pre);
    PagesBelowOfCarry(pre, Runs(pre));
    if k < n {
      assert pre[i] == dates[i] && pre[j] == dates[j] && pre[k] == dates[k];
      RunsNeverMerged(pre, i, j, k, d, e);
      AddPageKeepsApart(Runs(pre), n, dates[n], i, k);
    } else {
      RunsLastContiguous(pre);
      AddPageSeparates(dates, Runs(pre), i, j, d, e);
    }
  }

  // ---------------------------------------------------------------------------
  // group_pages_by_date

  /** The run still being collected, as a list of at most one run. */
  function Open(date: Option<string>, pages: seq<nat>): seq<Group> {
    if pages == [] || date.None? then [] else [Group(date.value, pages)]
  }

  /**
    `group_pages_by_date(dates)`: the runs of consecutive dated pages sharing
    a date, in page order, which is the one grouping meeting the description.
  */
  method GroupPagesByDate(dates: seq<Option<string>>) returns (groups: seq<Group>)
    ensures groups == Runs(dates)
    ensures IsDateGrouping(dates, groups)
  {
    groups := [];
    var currentDate: Option<string> := None;
    var currentPages: seq<nat> := [];
    for i := 0 to |dates|
      invariant currentDate.Some? <==> currentPages != []
      invariant currentPages == [] ==> groups == []
      invariant Runs(dates[..i]) == groups + Open(currentDate, currentPages)
    {
      assert dates[..i + 1][..i] == dates[..i];
      match dates[i]
      case None =>
      case Some(d) =>
        if Some(d) != currentDate {
          if currentPages != [] {
            groups := groups + [Group(currentDate.value, currentPages)];
          }
          currentDate := Some(d);
          currentPages := [i];
        } else {
          currentPages := currentPages + [i];
        }
    }
    if currentPages != [] {
      groups := groups + [Group(currentDate.value, currentPages)];
    }
    assert dates[..|dates|] == dates;
    RunsAreDateGrouping(dates);
  }

  /** A date that comes back after another one opens a third run with the same date. */
  lemma RecurringDateSplits(a: string, b: string)
    requires a != b
    ensures Runs([Some(a), Some(b), Some(a)]) == [Group(a, [0]), Group(b, [1]), Group(a, [2])]
  {
    var dates := [Some(a), Some(b), Some(a)];
    var one := [Some(a)];
    var two := [Some(a), Some(b)];
    assert one[..0] == [];
    assert Runs(one) == [Group(a, [0])];
    assert two[..1] == one;
    assert Runs(two) == [Group(a, [0]), Group(b, [1])];
    assert dates[..2] == two;
  }
}
