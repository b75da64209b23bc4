/** The warranty-deposit table: the list of construction sites for the site selector,
    the rows after the site, card and status filters, the site's descriptions, the
    handlers that change the filters, and the id the grid gives each row. */
module EnsureTable {
  import opened Common

  /** One deposit row.  Text columns are None when null; `ordNo` is the numeric ORD_NO
      and the other id columns hold the text `String(...)` gives them. */
  datatype EnsureRow = EnsureRow(
    siteName: Option<string>,
    ordNo: Option<int>,
    stopEnsureDate: Option<string>,
    ensureCh: Option<string>,
    ensureId: Option<string>,
    projectId: Option<string>,
    itemNo: Option<string>,
    ensureKnd: Option<string>)

  // ---------------------------------------------------------------------------
  // uniqueSites

  /** A row that names a non-blank site and has an ORD_NO. */
  predicate Qualifies(r: EnsureRow) {
    r.siteName.Some? && !IsBlank(r.siteName.value) && r.ordNo.Some?
  }

  predicate QualifiesAs(r: EnsureRow, site: string) {
    Qualifies(r) && r.siteName == Some(site)
  }

  ghost predicate SiteAppears(rows: seq<EnsureRow>, site: string) {
    exists k :: 0 <= k < |rows| && QualifiesAs(rows[k], site)
  }

  ghost predicate OrdOfSite(rows: seq<EnsureRow>, site: string, ord: int) {
    exists k :: 0 <= k < |rows| && QualifiesAs(rows[k], site) && rows[k].ordNo == Some(ord)
  }

  lemma PrefixWitness(rows: seq<EnsureRow>, k: int)
    requires rows != [] && 0 <= k < |rows| - 1
    ensures rows[..|rows| - 1][k] == rows[k]
  {
  }

  /** The site names of the qualifying rows, in row order, repeats included. */
  function QualifiedSites(rows: seq<EnsureRow>): (r: seq<string>)
    ensures forall s :: s in r <==> SiteAppears(rows, s)
  {
    if rows == [] then []
    else
      var n := |rows|;
      var prev := QualifiedSites(rows[..n - 1]);
      var last := rows[n - 1];
      forall s ensures SiteAppears(rows, s) <==> SiteAppears(rows[..n - 1], s) || QualifiesAs(last, s) {
        if SiteAppears(rows, s) {
          var k :| 0 <= k < n && QualifiesAs(rows[k], s);
          if k < n - 1 {
            PrefixWitness(rows, k);
          }
        }
        if SiteAppears(rows[..n - 1], s) {
          var k :| 0 <= k < n - 1 && QualifiesAs(rows[..n - 1][k], s);
          PrefixWitness(rows, k);
        }
      }
      prev + (if Qualifies(last) then [last.siteName.value] else [])
  }

  /** The smallest ORD_NO among the qualifying rows of a site; None when it has none. */
  function MinOrd(rows: seq<EnsureRow>, site: string): (r: Option<int>)
    ensures r.None? <==> !SiteAppears(rows, site)
    ensures r.Some? ==> OrdOfSite(rows, site, r.value)
    ensures r.Some? ==> forall k :: 0 <= k < |rows| && QualifiesAs(rows[k], site) ==> r.value <= rows[k].ordNo.value
  {
    if rows == [] then None
    else
      var n := |rows|;
      var prev := MinOrd(rows[..n - 1], site);
      var last := rows[n - 1];
      var r := if QualifiesAs(last, site) && (prev.None? || prev.value > last.ordNo.value) then Some(last.ordNo.value) else prev;
      assert forall k :: 0 <= k < n - 1 ==> rows[..n - 1][k] == rows[k];
      assert QualifiesAs(last, site) ==> SiteAppears(rows, site) by {
        if QualifiesAs(last, site) {
          assert QualifiesAs(rows[n - 1], site);
        }
      }
      assert r.Some? && QualifiesAs(last, site) && r.value == last.ordNo.value ==> OrdOfSite(rows, site, r.value) by {
        if r.Some? && QualifiesAs(last, site) && r.value == last.ordNo.value {
          assert rows[n - 1].ordNo == Some(r.value);
        }
      }
      assert prev.Some? && r == prev ==> OrdOfSite(rows, site, r.value) by {
        if prev.Some? && r == prev {
          var k :| 0 <= k < n - 1 && QualifiesAs(rows[..n - 1][k], site) && rows[..n - 1][k].ordNo == Some(prev.value);
          assert rows[k] == rows[..n - 1][k];
        }
      }
      assert SiteAppears(rows, site) ==> SiteAppears(rows[..n - 1], site) || QualifiesAs(last, site) by {
        if SiteAppears(rows, site) {
          var k :| 0 <= k < n && QualifiesAs(rows[k], site);
          if k < n - 1 {
            assert QualifiesAs(rows[..n - 1][k], site);
          }
        }
      }
      assert SiteAppears(rows[..n - 1], site) ==> SiteAppears(rows, site) by {
        if SiteAppears(rows[..n - 1], site) {
          var k :| 0 <= k < n - 1 && QualifiesAs(rows[..n - 1][k], site);
          assert QualifiesAs(rows[k], site);
        }
      }
      r
  }

  /** A site's sort key: its smallest ORD_NO. */
  function SiteOrd(rows: seq<EnsureRow>, site: string): int {
    MinOrd(rows, site).GetOr(0)
  }

  /** The sites in the order the map first sees them. */
  function SiteKeys(rows: seq<EnsureRow>): seq<string> {
    Dedup(QualifiedSites(rows))
  }

  /** The map's entries, in insertion order. */
  function Entries(rows: seq<EnsureRow>): seq<(string, int)> {
    MapSeq(SiteKeys(rows), s => (s, SiteOrd(rows, s)))
  }

  function OrdLess(a: (string, int), b: (string, int)): bool {
    a.1 < b.1
  }

  function EntrySite(e: (string, int)): string {
    e.0
  }

  /** The site selector's options: the entries sorted by ORD_NO (ties keep the order of
      the map), names only. */
  function UniqueSites(rows: seq<EnsureRow>): seq<string> {
    MapSeq(SortBy(Entries(rows), OrdLess), EntrySite)
  }

  lemma PrefixOfAppend(pre: seq<EnsureRow>, row: EnsureRow)
    ensures (pre + [row])[..|pre|] == pre && (pre + [row])[|pre|] == row
  {
  }

  lemma QualifiedSitesStep(pre: seq<EnsureRow>, row: EnsureRow)
    ensures QualifiedSites(pre + [row]) == QualifiedSites(pre) + (if Qualifies(row) then [row.siteName.value] else [])
  {
    PrefixOfAppend(pre, row);
  }

  /** A row only touches the entry of its own site. */
  lemma MinOrdOther(pre: seq<EnsureRow>, row: EnsureRow, s: string)
    requires !QualifiesAs(row, s)
    ensures MinOrd(pre + [row], s) == MinOrd(pre, s)
  {
    PrefixOfAppend(pre, row);
  }

  /** A qualifying row lowers its site's entry to its ORD_NO, or sets it. */
  lemma MinOrdSame(pre: seq<EnsureRow>, row: EnsureRow)
    requires Qualifies(row)
    ensures MinOrd(pre, row.siteName.value).None? ==> MinOrd(pre + [row], row.siteName.value) == row.ordNo
    ensures MinOrd(pre, row.siteName.value).Some? ==>
      MinOrd(pre + [row], row.siteName.value) ==
        if MinOrd(pre, row.siteName.value).value > row.ordNo.value then row.ordNo else MinOrd(pre, row.siteName.value)
  {
    PrefixOfAppend(pre, row);
  }

  /** The entries of a map that holds each site's smallest ORD_NO, read in the order of
      its keys. */
  lemma EntriesOfMap(rows: seq<EnsureRow>, keys: seq<string>, m: map<string, int>)
    requires keys == SiteKeys(rows)
    requires forall s :: s in m <==> s in keys
    requires forall s :: s in m ==> MinOrd(rows, s) == Some(m[s])
    ensures seq(|keys|, k requires 0 <= k < |keys| => (keys[k], m[keys[k]])) == Entries(rows)
  {
    var entries := seq(|keys|, k requires 0 <= k < |keys| => (keys[k], m[keys[k]]));
    forall k | 0 <= k < |keys| ensures entries[k] == Entries(rows)[k] {
      assert keys[k] in m;
    }
  }

  /** After the rows `pre`: `keys` holds the qualifying sites in first-seen order and
      `m` each one's smallest ORD_NO. */
  ghost predicate SitesSoFar(pre: seq<EnsureRow>, keys: seq<string>, m: map<string, int>) {
    && keys == SiteKeys(pre)
    && (forall s :: s in m <==> s in keys)
    && (forall s :: s in m ==> MinOrd(pre, s) == Some(m[s]))
  }

  /** A row that does not qualify changes nothing. */
  lemma StepSkip(pre: seq<EnsureRow>, row: EnsureRow, keys: seq<string>, m: map<string, int>)
    requires SitesSoFar(pre, keys, m) && !Qualifies(row)
    ensures SitesSoFar(pre + [row], keys, m)
  {
    QualifiedSitesStep(pre, row);
    assert QualifiedSites(pre) + [] == QualifiedSites(pre);
    forall s | s in m ensures MinOrd(pre + [row], s) == Some(m[s]) {
      MinOrdOther(pre, row, s);
    }
  }

  /** The first row of a site adds it with its ORD_NO. */
  lemma StepNew(pre: seq<EnsureRow>, row: EnsureRow, keys: seq<string>, m: map<string, int>)
    requires SitesSoFar(pre, keys, m) && Qualifies(row) && row.siteName.value !in m
    ensures SitesSoFar(pre + [row], keys + [row.siteName.value], m[row.siteName.value := row.ordNo.value])
  {
    var site, ord := row.siteName.value, row.ordNo.value;
    var m1 := m[site := ord];
    QualifiedSitesStep(pre, row);
    DedupAppend(QualifiedSites(pre), site);
    assert SiteKeys(pre + [row]) == keys + [site];
    assert !SiteAppears(pre, site);
    MinOrdSame(pre, row);
    assert MinOrd(pre + [row], site) == Some(ord);
    assert forall s :: s in m1 <==> s in keys + [site];
    forall s | s in m1 ensures MinOrd(pre + [row], s) == Some(m1[s]) {
      if s != site {
        MinOrdOther(pre, row, s);
      }
    }
    assert SitesSoFar(pre + [row], keys + [site], m1);
  }

  /** A later row of a site with a smaller ORD_NO lowers its entry. */
  lemma StepLower(pre: seq<EnsureRow>, row: EnsureRow, keys: seq<string>, m: map<string, int>)
    requires SitesSoFar(pre, keys, m) && Qualifies(row)
    requires row.siteName.value in m && m[row.siteName.value] > row.ordNo.value
    ensures SitesSoFar(pre + [row], keys, m[row.siteName.value := row.ordNo.value])
  {
    var site, ord := row.siteName.value, row.ordNo.value;
    var m1 := m[site := ord];
    QualifiedSitesStep(pre, row);
    DedupAppend(QualifiedSites(pre), site);
    assert SiteKeys(pre + [row]) == keys;
    MinOrdSame(pre, row);
    assert MinOrd(pre + [row], site) == Some(ord);
    assert forall s :: s in m1 <==> s in keys;
    forall s | s in m1 ensures MinOrd(pre + [row], s) == Some(m1[s]) {
      if s != site {
        MinOrdOther(pre, row, s);
      }
    }
    assert SitesSoFar(pre + [row], keys, m1);
  }

  /** A later row of a site with an ORD_NO no smaller than its entry changes nothing. */
  lemma StepKeep(pre: seq<EnsureRow>, row: EnsureRow, keys: seq<string>, m: map<string, int>)
    requires SitesSoFar(pre, keys, m) && Qualifies(row)
    requires row.siteName.value in m && m[row.siteName.value] <= row.ordNo.value
    ensures SitesSoFar(pre + [row], keys, m)
  {
    var site := row.siteName.value;
    QualifiedSitesStep(pre, row);
    DedupAppend(QualifiedSites(pre), site);
    assert SiteKeys(pre + [row]) == keys;
    MinOrdSame(pre, row);
    assert MinOrd(pre + [row], site) == Some(m[site]);
    forall s | s in m ensures MinOrd(pre + [row], s) == Some(m[s]) {
      if s != site {
        MinOrdOther(pre, row, s);
      }
    }
    assert SitesSoFar(pre + [row], keys, m);
  }

  /** `uniqueSites`: the `forEach` keeping each site's smallest ORD_NO in a map, then
      its entries sorted. */
  method ComputeUniqueSites(rows: seq<EnsureRow>) returns (sites: seq<string>)
    ensures sites == UniqueSites(rows)
  {
    var m: map<string, int> := map[];
    var keys: seq<string> := [];
    for i := 0 to |rows|
      invariant SitesSoFar(rows[..i], keys, m)
    {
      var row := rows[i];
      assert rows[..i + 1] == rows[..i] + [row];
      if Qualifies(row) {
        var site, ordNo := row.siteName.value, row.ordNo.value;
        if site !in m {
          StepNew(rows[..i], row, keys, m);
          keys, m := keys + [site], m[site := ordNo];
        } else if m[site] > ordNo {
          StepLower(rows[..i], row, keys, m);
          m := m[site := ordNo];
        } else {
          StepKeep(rows[..i], row, keys, m);
        }
      } else {
        StepSkip(rows[..i], row, keys, m);
      }
    }
    assert rows[..|rows|] == rows;
    var entries := seq(|keys|, k requires 0 <= k < |keys| => (keys[k], m[keys[k]]));
    EntriesOfMap(rows, keys, m);
    sites := MapSeq(SortBy(entries, OrdLess), EntrySite);
  }

  lemma OrdLessIsStrict()
    ensures StrictOrder(OrdLess)
  {
  }

  /** A map entry: a site of the rows with its smallest ORD_NO. */
  ghost predicate IsEntry(rows: seq<EnsureRow>, e: (string, int)) {
    e.0 in SiteKeys(rows) && e.1 == SiteOrd(rows, e.0)
  }

  /** The sorted entries are the map's entries, each once. */
  lemma SortedEntriesFacts(rows: seq<EnsureRow>)
    ensures Distinct(SortBy(Entries(rows), OrdLess))
    ensures forall e :: e in SortBy(Entries(rows), OrdLess) <==> IsEntry(rows, e)
  {
    var keys := SiteKeys(rows);
    var es := Entries(rows);
    var sorted := SortBy(es, OrdLess);
    assert Distinct(es) by {
      forall i, j | 0 <= i < j < |es| ensures es[i] != es[j] {
        assert keys[i] != keys[j];
      }
    }
    PermutationDistinct(es, sorted);
    forall e ensures e in sorted <==> IsEntry(rows, e) {
      assert e in sorted <==> e in multiset(es);
      if IsEntry(rows, e) {
        var k :| 0 <= k < |keys| && keys[k] == e.0;
        assert es[k] == e;
      }
    }
  }

  /** The options name each site once. */
  lemma UniqueSitesDistinct(rows: seq<EnsureRow>)
    ensures Distinct(UniqueSites(rows))
  {
    var sorted := SortBy(Entries(rows), OrdLess);
    var r := UniqueSites(rows);
    SortedEntriesFacts(rows);
    forall i, j | 0 <= i < j < |r| ensures r[i] != r[j] {
      assert IsEntry(rows, sorted[i]) && IsEntry(rows, sorted[j]);
      assert sorted[i] != sorted[j];
    }
  }

  /** The options are exactly the non-blank sites of rows with an ORD_NO. */
  lemma UniqueSitesMembers(rows: seq<EnsureRow>)
    ensures forall s :: s in UniqueSites(rows) <==> SiteAppears(rows, s)
  {
    var sorted := SortBy(Entries(rows), OrdLess);
    var r := UniqueSites(rows);
    SortedEntriesFacts(rows);
    forall s ensures s in r <==> SiteAppears(rows, s) {
      if s in r {
        var k :| 0 <= k < |r| && r[k] == s;
        assert IsEntry(rows, sorted[k]);
      }
      if SiteAppears(rows, s) {
        assert IsEntry(rows, (s, SiteOrd(rows, s)));
        var j :| 0 <= j < |sorted| && sorted[j] == (s, SiteOrd(rows, s));
        assert r[j] == s;
      }
    }
  }

  /** The options come in ascending order of their smallest ORD_NO. */
  lemma UniqueSitesOrdered(rows: seq<EnsureRow>)
    ensures forall i, j :: 0 <= i < j < |UniqueSites(rows)| ==> SiteOrd(rows, UniqueSites(rows)[i]) <= SiteOrd(rows, UniqueSites(rows)[j])
  {
    var sorted := SortBy(Entries(rows), OrdLess);
    var r := UniqueSites(rows);
    SortedEntriesFacts(rows);
    OrdLessIsStrict();
    SortBySorted(Entries(rows), OrdLess);
    forall i, j | 0 <= i < j < |r| ensures SiteOrd(rows, r[i]) <= SiteOrd(rows, r[j]) {
      assert !OrdLess(sorted[j], sorted[i]);
      assert IsEntry(rows, sorted[i]) && IsEntry(rows, sorted[j]);
    }
  }

  /** The key the map keeps for a site is the smallest ORD_NO among its rows and one of
      them. */
  lemma SiteOrdIsMinimum(rows: seq<EnsureRow>, site: string)
    requires SiteAppears(rows, site)
    ensures OrdOfSite(rows, site, SiteOrd(rows, site))
    ensures forall k :: 0 <= k < |rows| && QualifiesAs(rows[k], site) ==> SiteOrd(rows, site) <= rows[k].ordNo.value
  {
  }

  // ---------------------------------------------------------------------------
  // filteredData

  /** `warrantyStatusFilter`. */
  datatype Status = All | Released | NotReleased

  /** `ensureTypeFilter`: undefined before any card is clicked, null for the overall
      card, or the deposit type of the clicked card. */
  datatype CardFilter = NoCard | Overall | CardType(ensureType: string)

  /** A deposit not yet released: no STOP_ENSURE_DATE, or an empty one. */
  predicate Unreleased(r: EnsureRow) {
    r.stopEnsureDate.None? || r.stopEnsureDate == Some("")
  }

  predicate IsReleased(r: EnsureRow) {
    r.stopEnsureDate.Some? && r.stopEnsureDate != Some("")
  }

  function AtSite(site: string): EnsureRow -> bool {
    (r: EnsureRow) => r.siteName == Some(site)
  }

  function OfType(t: string): EnsureRow -> bool {
    (r: EnsureRow) => r.ensureCh == Some(t) && Unreleased(r)
  }

  /** The site selector: the empty choice shows every site. */
  function SiteFiltered(data: seq<EnsureRow>, site: string): (r: seq<EnsureRow>)
    ensures IsSubsequence(r, data)
    ensures site == "" ==> r == data
    ensures site != "" ==> forall x :: x in r <==> x in data && x.siteName == Some(site)
    ensures site != "" ==> forall x :: multiset(r)[x] == if x.siteName == Some(site) then multiset(data)[x] else 0
  {
    if site == "" then
      SubsequenceReflexive(data);
      data
    else
      FilterSubsequence(data, AtSite(site));
      FilterCounts(data, AtSite(site));
      FilterMembers(data, AtSite(site));
      Filter(data, AtSite(site))
  }

  /** The rows the grid shows before numbering: a selected card filters the site's rows
      by the card, and only otherwise does the status toggle apply. */
  function FilteredRows(data: seq<EnsureRow>, site: string, card: CardFilter, status: Status): seq<EnsureRow> {
    var bySite := SiteFiltered(data, site);
    match card
    case Overall => Filter(bySite, Unreleased)
    case CardType(t) => Filter(bySite, OfType(t))
    case NoCard =>
      match status
      case Released => Filter(bySite, IsReleased)
      case NotReleased => Filter(bySite, Unreleased)
      case All => bySite
  }

  /** A row with its `rowNumber`. */
  datatype NumberedRow = NumberedRow(row: EnsureRow, rowNumber: nat)

  function Numbered(rows: seq<EnsureRow>): (r: seq<NumberedRow>)
    ensures |r| == |rows|
    ensures forall k :: 0 <= k < |r| ==> r[k].row == rows[k] && r[k].rowNumber == k + 1
  {
    seq(|rows|, k requires 0 <= k < |rows| => NumberedRow(rows[k], k + 1))
  }

  /** `filteredData`. */
  function FilteredData(data: seq<EnsureRow>, site: string, card: CardFilter, status: Status): seq<NumberedRow> {
    Numbered(FilteredRows(data, site, card, status))
  }

  /** The overall card keeps exactly the site's unreleased rows, each as often as the site
      has it, in order. */
  lemma OverallCardRows(data: seq<EnsureRow>, site: string, status: Status)
    ensures IsSubsequence(FilteredRows(data, site, Overall, status), SiteFiltered(data, site))
    ensures forall x :: x in FilteredRows(data, site, Overall, status) <==> x in SiteFiltered(data, site) && Unreleased(x)
    ensures forall x :: multiset(FilteredRows(data, site, Overall, status))[x] == if Unreleased(x) then multiset(SiteFiltered(data, site))[x] else 0
  {
    FilterSubsequence(SiteFiltered(data, site), Unreleased);
    FilterCounts(SiteFiltered(data, site), Unreleased);
    FilterMembers(SiteFiltered(data, site), Unreleased);
  }

  /** A type card keeps exactly the site's unreleased rows of that type, each as often as
      the site has it, in order. */
  lemma TypeCardRows(data: seq<EnsureRow>, site: string, t: string, status: Status)
    ensures IsSubsequence(FilteredRows(data, site, CardType(t), status), SiteFiltered(data, site))
    ensures forall x :: x in FilteredRows(data, site, CardType(t), status) <==> x in SiteFiltered(data, site) && x.ensureCh == Some(t) && Unreleased(x)
    ensures forall x :: multiset(FilteredRows(data, site, CardType(t), status))[x] == if x.ensureCh == Some(t) && Unreleased(x) then multiset(SiteFiltered(data, site))[x] else 0
  {
    FilterSubsequence(SiteFiltered(data, site), OfType(t));
    FilterCounts(SiteFiltered(data, site), OfType(t));
    FilterMembers(SiteFiltered(data, site), OfType(t));
  }

  /** While a card is selected the status toggle changes nothing. */
  lemma CardOverridesStatus(data: seq<EnsureRow>, site: string, card: CardFilter, s1: Status, s2: Status)
    requires card != NoCard
    ensures FilteredRows(data, site, card, s1) == FilteredRows(data, site, card, s2)
  {
  }

  /** Without a card, 'released' and 'notReleased' split the site's rows between them,
      and 'all' keeps them all. */
  lemma {:induction false} StatusPartitions(data: seq<EnsureRow>, site: string)
    ensures FilteredRows(data, site, NoCard, All) == SiteFiltered(data, site)
    ensures |FilteredRows(data, site, NoCard, Released)| + |FilteredRows(data, site, NoCard, NotReleased)| == |SiteFiltered(data, site)|
    ensures forall x :: x in SiteFiltered(data, site) ==>
      (x in FilteredRows(data, site, NoCard, Released) <==> x !in FilteredRows(data, site, NoCard, NotReleased))
  {
    var bySite := SiteFiltered(data, site);
    FilterSplitsLength(bySite, IsReleased, Unreleased);
    FilterMembers(bySite, IsReleased);
    FilterMembers(bySite, Unreleased);
  }

  // ---------------------------------------------------------------------------
  // filteredDescData

  /** A description row; only the project it belongs to matters here. */
  datatype DescRow = DescRow(projectName: Option<string>, text: Option<string>)

  function OfProject(site: string): DescRow -> bool {
    (d: DescRow) => d.projectName == Some(site)
  }

  /** `filteredDescData`: nothing without a selected site, else that site's rows. */
  function FilteredDescData(desc: seq<DescRow>, site: string): (r: seq<DescRow>)
    ensures site == "" ==> r == []
    ensures forall d :: d in r <==> d in desc && site != "" && d.projectName == Some(site)
    ensures IsSubsequence(r, desc)
    ensures forall d :: multiset(r)[d] == if site != "" && d.projectName == Some(site) then multiset(desc)[d] else 0
  {
    if site == "" || desc == [] then
      SubsequenceDropAll(desc);
      []
    else
      FilterMembers(desc, OfProject(site));
      FilterCounts(desc, OfProject(site));
      FilterSubsequence(desc, OfProject(site));
      Filter(desc, OfProject(site))
  }

  lemma {:induction false} SubsequenceDropAll<T>(s: seq<T>)
    ensures IsSubsequence([], s)
  {
    FilterNone(s, (x: T) => false);
    FilterSubsequence(s, (x: T) => false);
  }

  // ---------------------------------------------------------------------------
  // The filter state and its handlers

  class Filters {
    var siteFilter: string
    var warrantyStatusFilter: Status
    var ensureTypeFilter: CardFilter

    /** Every site, every status, no card. */
    constructor ()
      ensures siteFilter == "" && warrantyStatusFilter == All && ensureTypeFilter == NoCard
    {
      siteFilter := "";
      warrantyStatusFilter := All;
      ensureTypeFilter := NoCard;
    }

    /** `handleCardClick`: select the card (None for the overall card) and show every
        site. */
    method CardClick(ensureType: Option<string>)
      modifies this
      ensures ensureTypeFilter == (if ensureType.None? then Overall else CardType(ensureType.value))
      ensures siteFilter == ""
      ensures warrantyStatusFilter == old(warrantyStatusFilter)
    {
      ensureTypeFilter := if ensureType.None? then Overall else CardType(ensureType.value);
      siteFilter := "";
    }

    /** The site selector's `onChange`: choose the site and drop the card. */
    method SiteChange(site: string)
      modifies this
      ensures siteFilter == site && ensureTypeFilter == NoCard
      ensures warrantyStatusFilter == old(warrantyStatusFilter)
    {
      siteFilter := site;
      ensureTypeFilter := NoCard;
    }

    /** The status toggle's `onChange`: a null value (the pressed button clicked again)
        is ignored; otherwise choose the status and drop the card. */
    method StatusToggle(value: Option<Status>)
      modifies this
      ensures value.None? ==> siteFilter == old(siteFilter) && warrantyStatusFilter == old(warrantyStatusFilter) && ensureTypeFilter == old(ensureTypeFilter)
      ensures value.Some? ==> warrantyStatusFilter == value.value && ensureTypeFilter == NoCard && siteFilter == old(siteFilter)
    {
      if value.Some? {
        warrantyStatusFilter := value.value;
        ensureTypeFilter := NoCard;
      }
    }

    function Shown(data: seq<EnsureRow>): seq<NumberedRow>
      reads this
    {
      FilteredData(data, siteFilter, ensureTypeFilter, warrantyStatusFilter)
    }

    function Described(desc: seq<DescRow>): seq<DescRow>
      reads this
    {
      FilteredDescData(desc, siteFilter)
    }
  }

  /** After a card click the descriptions panel is empty and the grid holds the card's
      rows from every site. */
  method CardClickShows(f: Filters, data: seq<EnsureRow>, desc: seq<DescRow>, ensureType: Option<string>)
      returns (shown: seq<NumberedRow>, described: seq<DescRow>)
    modifies f
    ensures described == []
    ensures shown == FilteredData(data, "", if ensureType.None? then Overall else CardType(ensureType.value), old(f.warrantyStatusFilter))
  {
    f.CardClick(ensureType);
    shown := f.Shown(data);
    described := f.Described(desc);
  }

  // ---------------------------------------------------------------------------
  // getRowId

  function DigitChar(d: nat): char
    requires d < 10
  {
    ['0', '1', '2', '3', '4', '5', '6', '7', '8', '9'][d]
  }

  /** `String(n)` of a natural number. */
  function NatText(n: nat): (r: string)
    ensures |r| >= 1
  {
    if n < 10 then [DigitChar(n)] else NatText(n / 10) + [DigitChar(n % 10)]
  }

  /** `String(n)` of an integer. */
  function IntText(n: int): (r: string)
    ensures |r| >= 1
  {
    if n < 0 then "-" + NatText(-n) else NatText(n)
  }

  /** An id column as text: empty for null. */
  function Part(v: Option<string>): string {
    if v.None? then "" else v.value
  }

  function OrdPart(v: Option<int>): (r: string)
    ensures r == "" <==> v.None?
  {
    if v.None? then "" else IntText(v.value)
  }

  /** The four id columns joined with dashes. */
  function Composite(r: EnsureRow): (c: string)
    ensures |c| == |Part(r.projectId)| + |Part(r.itemNo)| + |OrdPart(r.ordNo)| + |Part(r.ensureKnd)| + 3
  {
    Part(r.projectId) + "-" + Part(r.itemNo) + "-" + OrdPart(r.ordNo) + "-" + Part(r.ensureKnd)
  }

  /** The grid's row id: ENSURE_ID, or the composite, or, when the composite is only the
      three dashes, the serialised row (not modelled). */
  datatype RowId = EnsureId(id: string) | CompositeId(key: string) | Serialized

  function GetRowId(r: EnsureRow): (id: RowId)
    ensures id.EnsureId? <==> r.ensureId.Some? && r.ensureId.value != ""
    ensures id.EnsureId? ==> id.id == r.ensureId.value
    ensures id.CompositeId? ==> id.key == Composite(r) && id.key != "---"
  {
    if r.ensureId.Some? && r.ensureId.value != "" then EnsureId(r.ensureId.value)
    else
      var composite := Composite(r);
      if composite != "---" then CompositeId(composite) else Serialized
  }

  /** The composite is used exactly when some id column is non-empty. */
  lemma SerializedOnlyWithoutIds(r: EnsureRow)
    requires !(r.ensureId.Some? && r.ensureId.value != "")
    ensures GetRowId(r) == Serialized <==>
      Part(r.projectId) == "" && Part(r.itemNo) == "" && r.ordNo.None? && Part(r.ensureKnd) == ""
  {
    if Part(r.projectId) == "" && Part(r.itemNo) == "" && r.ordNo.None? && Part(r.ensureKnd) == "" {
      assert Composite(r) == "---";
    }
  }
}
