/** The tender list page: search, procurement-level and date filters, the sort with its
    key normalisation and toggle rule, page slicing, and the page state its handlers
    update. */
module TenderListClient {
  import opened Common
  import opened Numeric
  import opened Tenders

  const PageSize: nat := 20

  // ---------------------------------------------------------------------------
  // Search

  /** Some of tender_name, org_name and tender_no, lower-cased, contains `lowerSearch`. */
  predicate MatchesSearch(t: Tender, lowerSearch: string) {
    || (t.tenderName.Some? && Contains(ToLower(t.tenderName.value), lowerSearch))
    || (t.orgName.Some? && Contains(ToLower(t.orgName.value), lowerSearch))
    || (t.tenderNo.Some? && Contains(ToLower(t.tenderNo.value), lowerSearch))
  }

  function Matching(lowerSearch: string): Tender -> bool {
    (t: Tender) => MatchesSearch(t, lowerSearch)
  }

  /** The search step: a blank term keeps everything; any other term, lower-cased but not
      trimmed, keeps the tenders that match it, in order. */
  function SearchFilter(items: seq<Tender>, term: string): (r: seq<Tender>)
    ensures IsSubsequence(r, items)
    ensures IsBlank(term) ==> r == items
    ensures !IsBlank(term) ==> forall t :: t in r <==> t in items && MatchesSearch(t, ToLower(term))
    ensures !IsBlank(term) ==> forall t :: multiset(r)[t] == if MatchesSearch(t, ToLower(term)) then multiset(items)[t] else 0
  {
    if IsBlank(term) then
      SubsequenceReflexive(items);
      items
    else
      FilterMembers(items, Matching(ToLower(term)));
      FilterCounts(items, Matching(ToLower(term)));
      FilterSubsequence(items, Matching(ToLower(term)));
      Filter(items, Matching(ToLower(term)))
  }

  lemma LowerCharWhiteSpace(c: char)
    ensures IsWhiteSpace(LowerChar(c)) <==> IsWhiteSpace(c)
  {
  }

  lemma BlankIgnoresCase(s: string)
    ensures IsBlank(ToLower(s)) <==> IsBlank(s)
  {
    BlankIffAllWhiteSpace(s);
    BlankIffAllWhiteSpace(ToLower(s));
    forall k | 0 <= k < |s| ensures IsWhiteSpace(ToLower(s)[k]) <==> IsWhiteSpace(s[k]) {
      LowerCharWhiteSpace(s[k]);
    }
  }

  /** The search ignores the case of the term. */
  lemma SearchIgnoresCase(items: seq<Tender>, term: string)
    ensures SearchFilter(items, ToLower(term)) == SearchFilter(items, term)
  {
    BlankIgnoresCase(term);
    ToLowerIdempotent(term);
  }

  lemma PaddedNotBlank(name: string)
    requires !IsBlank(name)
    ensures !IsBlank(name + " ")
  {
    BlankIffAllWhiteSpace(name);
    BlankIffAllWhiteSpace(name + " ");
    var k :| 0 <= k < |name| && !IsWhiteSpace(name[k]);
    assert (name + " ")[k] == name[k];
  }

  lemma PaddedLower(name: string)
    requires ToLower(name) == name
    ensures ToLower(name + " ") == name + " "
  {
    var padded := name + " ";
    forall i | 0 <= i < |padded| ensures ToLower(padded)[i] == padded[i] {
      if i < |name| {
        assert ToLower(name)[i] == LowerChar(name[i]);
        assert padded[i] == name[i];
      }
    }
  }

  /** The term is not trimmed: a trailing space makes a lower-case name miss the tender
      that carries it, which the name alone finds. */
  lemma SearchTermNotTrimmed(t: Tender, name: string)
    requires t.tenderName == Some(name) && t.orgName.None? && t.tenderNo.None?
    requires !IsBlank(name) && ToLower(name) == name
    ensures SearchFilter([t], name) == [t]
    ensures SearchFilter([t], name + " ") == []
  {
    var padded := name + " ";
    PaddedNotBlank(name);
    PaddedLower(name);
    assert OccursAt(name, name, 0);
    assert !Contains(name, padded);
    assert Matching(name)(t) && !Matching(padded)(t);
    assert Filter([t], Matching(name)) == [t] by { assert [t][1..] == []; }
    assert Filter([t], Matching(padded)) == [] by { assert [t][1..] == []; }
  }

  // ---------------------------------------------------------------------------
  // Procurement level

  function LevelIs(level: string): Tender -> bool {
    (t: Tender) => t.procurementLevel == Some(level)
  }

  function Unleveled(t: Tender): bool {
    !Truthy(t.procurementLevel)
  }

  /** The level step: `all` keeps everything, `null` keeps the tenders without a level,
      any other value keeps the tenders with exactly that level, in order. */
  function LevelFilter(items: seq<Tender>, level: string): (r: seq<Tender>)
    ensures IsSubsequence(r, items)
    ensures level == "all" ==> r == items
    ensures level == "null" ==> forall t :: t in r <==> t in items && !Truthy(t.procurementLevel)
    ensures level != "all" && level != "null" ==> forall t :: t in r <==> t in items && t.procurementLevel == Some(level)
    ensures level == "null" ==> forall t :: multiset(r)[t] == if !Truthy(t.procurementLevel) then multiset(items)[t] else 0
    ensures level != "all" && level != "null" ==>
      forall t :: multiset(r)[t] == if t.procurementLevel == Some(level) then multiset(items)[t] else 0
  {
    if level == "all" then
      SubsequenceReflexive(items);
      items
    else if level == "null" then
      FilterMembers(items, Unleveled);
      FilterCounts(items, Unleveled);
      FilterSubsequence(items, Unleveled);
      Filter(items, Unleveled)
    else
      FilterMembers(items, LevelIs(level));
      FilterCounts(items, LevelIs(level));
      FilterSubsequence(items, LevelIs(level));
      Filter(items, LevelIs(level))
  }

  // ---------------------------------------------------------------------------
  // Announcement date

  /** The chosen range: `from` is the start of its day and `to` the end of its day, in
      milliseconds; None for no bound. */
  datatype DateRange = DateRange(from: Option<int>, to: Option<int>)

  const NoDates := DateRange(None, None)

  predicate InDateRange(range: DateRange, t: Tender) {
    && Truthy(t.announcementDate)
    && (range.from.Some? ==> range.from.value <= t.announcedAt)
    && (range.to.Some? ==> t.announcedAt <= range.to.value)
  }

  function Within(range: DateRange): Tender -> bool {
    (t: Tender) => InDateRange(range, t)
  }

  /** The date step: no bound keeps everything; with a bound, tenders without a date are
      dropped and the others kept when they fall inside the bounds, both inclusive. */
  function DateFilter(items: seq<Tender>, range: DateRange): (r: seq<Tender>)
    ensures IsSubsequence(r, items)
    ensures range == NoDates ==> r == items
    ensures range != NoDates ==> forall t :: t in r <==> t in items && InDateRange(range, t)
    ensures range != NoDates ==> forall t :: multiset(r)[t] == if InDateRange(range, t) then multiset(items)[t] else 0
  {
    if range.from.None? && range.to.None? then
      SubsequenceReflexive(items);
      items
    else
      FilterMembers(items, Within(range));
      FilterCounts(items, Within(range));
      FilterSubsequence(items, Within(range));
      Filter(items, Within(range))
  }

  /** A tender announced exactly at either bound is kept. */
  lemma DateBoundsInclusive(t: Tender, from: int, to: int)
    requires Truthy(t.announcementDate) && from <= to
    requires t.announcedAt == from || t.announcedAt == to
    ensures DateFilter([t], DateRange(Some(from), Some(to))) == [t]
  {
    assert Within(DateRange(Some(from), Some(to)))(t);
  }

  // ---------------------------------------------------------------------------
  // Sorting

  datatype SortKey = TenderName | OrgName | AnnouncementDate | Budget
  datatype Direction = Asc | Desc
  datatype SortConfig = SortConfig(key: SortKey, direction: Direction)

  const InitialSort := SortConfig(AnnouncementDate, Desc)

  /** A normalised sort value: text for the name columns, a number for the others. */
  datatype KeyValue = TextKey(text: string) | NumberKey(number: real)

  /** A null budget reads as `''`; the commas are dropped; NaN and 0 read as 0. */
  function BudgetKey(t: Tender): real {
    match ParsedBudget(t.budget.GetOr(""))
    case Some(v) => v
    case None => 0.0
  }

  /** The value the comparator compares: null becomes `''`, the budget a number, the date
      its instant (0 when there is none). */
  function KeyOf(t: Tender, key: SortKey): KeyValue {
    match key
    case TenderName => TextKey(t.tenderName.GetOr(""))
    case OrgName => TextKey(t.orgName.GetOr(""))
    case Budget => NumberKey(BudgetKey(t))
    case AnnouncementDate => NumberKey(if Truthy(t.announcementDate) then t.announcedAt as real else 0.0)
  }

  predicate KeyLess(a: KeyValue, b: KeyValue) {
    match (a, b)
    case (TextKey(x), TextKey(y)) => StrLess(x, y)
    case (NumberKey(x), NumberKey(y)) => x < y
    case _ => false
  }

  /** The comparator: `a` goes strictly before `b` when its value is smaller (ascending)
      or larger (descending). */
  function Comes(config: SortConfig): (Tender, Tender) -> bool {
    (a: Tender, b: Tender) =>
      if config.direction == Asc then KeyLess(KeyOf(a, config.key), KeyOf(b, config.key))
      else KeyLess(KeyOf(b, config.key), KeyOf(a, config.key))
  }

  lemma KeyLessStrict(a: KeyValue, b: KeyValue, c: KeyValue)
    ensures !KeyLess(a, a)
    ensures KeyLess(a, b) && KeyLess(b, c) ==> KeyLess(a, c)
  {
    if a.TextKey? {
      StrLessIrreflexive(a.text);
      if KeyLess(a, b) && KeyLess(b, c) {
        StrLessTransitive(a.text, b.text, c.text);
      }
    }
  }

  lemma ComesIsStrict(config: SortConfig)
    ensures StrictOrder(Comes(config))
  {
    forall a: Tender, b: Tender, c: Tender
      ensures !Comes(config)(a, a)
      ensures Comes(config)(a, b) && Comes(config)(b, c) ==> Comes(config)(a, c)
    {
      var ka, kb, kc := KeyOf(a, config.key), KeyOf(b, config.key), KeyOf(c, config.key);
      KeyLessStrict(ka, kb, kc);
      KeyLessStrict(kc, kb, ka);
    }
  }

  /** The sort of the filtered copy: stable under the comparator. */
  function SortTenders(items: seq<Tender>, config: SortConfig): (r: seq<Tender>)
    ensures multiset(r) == multiset(items)
    ensures SortedBy(r, Comes(config))
  {
    ComesIsStrict(config);
    SortBySorted(items, Comes(config));
    SortBy(items, Comes(config))
  }

  /** Ascending on a name column puts every name at or before the names after it. */
  lemma NamesAscend(items: seq<Tender>)
    ensures var r := SortTenders(items, SortConfig(TenderName, Asc));
      forall i, j :: 0 <= i < j < |r| ==> !StrLess(r[j].tenderName.GetOr(""), r[i].tenderName.GetOr(""))
  {
    var r := SortTenders(items, SortConfig(TenderName, Asc));
    forall i, j | 0 <= i < j < |r| ensures !StrLess(r[j].tenderName.GetOr(""), r[i].tenderName.GetOr("")) {
      assert !Comes(SortConfig(TenderName, Asc))(r[j], r[i]);
    }
  }

  /** Descending on the budget puts the larger amounts first. */
  lemma BudgetsDescend(items: seq<Tender>)
    ensures var r := SortTenders(items, SortConfig(Budget, Desc));
      forall i, j :: 0 <= i < j < |r| ==> BudgetKey(r[j]) <= BudgetKey(r[i])
  {
    var r := SortTenders(items, SortConfig(Budget, Desc));
    forall i, j | 0 <= i < j < |r| ensures BudgetKey(r[j]) <= BudgetKey(r[i]) {
      assert !Comes(SortConfig(Budget, Desc))(r[j], r[i]);
    }
  }

  /** The sort-toggle rule: the current key while ascending turns descending; any other
      click sorts ascending on the clicked key. */
  function NextSort(prev: SortConfig, key: SortKey): (r: SortConfig)
    ensures r.key == key
    ensures r.direction == Desc <==> prev.key == key && prev.direction == Asc
  {
    SortConfig(key, if prev.key == key && prev.direction == Asc then Desc else Asc)
  }

  /** A first click on another column sorts it ascending and a second descending; on the
      same column every click flips the direction. */
  lemma SortToggleAlternates(prev: SortConfig, key: SortKey)
    ensures prev.key != key ==> NextSort(prev, key) == SortConfig(key, Asc) && NextSort(NextSort(prev, key), key) == SortConfig(key, Desc)
    ensures NextSort(NextSort(prev, key), key).direction != NextSort(prev, key).direction
    ensures NextSort(SortConfig(key, Desc), key) == SortConfig(key, Asc)
  {
  }

  // ---------------------------------------------------------------------------
  // The pipeline and its pages

  /** `filteredData`: search, level and date steps on a copy of the list, then the sort. */
  function FilteredData(items: seq<Tender>, term: string, level: string, range: DateRange, config: SortConfig): seq<Tender> {
    SortTenders(DateFilter(LevelFilter(SearchFilter(items, term), level), range), config)
  }

  /** A tender passes the three filters. */
  predicate Passes(t: Tender, term: string, level: string, range: DateRange) {
    && (IsBlank(term) || MatchesSearch(t, ToLower(term)))
    && (level == "all" || (level == "null" && !Truthy(t.procurementLevel)) ||
        (level != "null" && t.procurementLevel == Some(level)))
    && (range == NoDates || InDateRange(range, t))
  }

  /** The filtered list holds exactly the tenders of the list that pass the filters, each
      as often as the list holds it, and is sorted by the comparator. */
  lemma FilteredDataFacts(items: seq<Tender>, term: string, level: string, range: DateRange, config: SortConfig)
    ensures forall t :: t in FilteredData(items, term, level, range, config) <==> t in items && Passes(t, term, level, range)
    ensures multiset(FilteredData(items, term, level, range, config)) <= multiset(items)
    ensures forall t :: multiset(FilteredData(items, term, level, range, config))[t] == if Passes(t, term, level, range) then multiset(items)[t] else 0
    ensures SortedBy(FilteredData(items, term, level, range, config), Comes(config))
  {
    var a := SearchFilter(items, term);
    var b := LevelFilter(a, level);
    var c := DateFilter(b, range);
    var r := FilteredData(items, term, level, range, config);
    SubsequenceTransitive(b, a, items);
    SubsequenceTransitive(c, b, items);
    SubsequenceMultiset(c, items);
    forall t ensures t in r <==> t in c {
      assert t in r <==> t in multiset(r);
      assert t in c <==> t in multiset(c);
    }
    forall t ensures multiset(r)[t] == if Passes(t, term, level, range) then multiset(items)[t] else 0 {
      assert multiset(r)[t] == multiset(c)[t];
    }
  }

  /** `Math.ceil(n / pageSize)`. */
  function TotalPages(n: nat): (r: nat)
    ensures n == 0 ==> r == 0
    ensures n > 0 ==> (r - 1) * PageSize < n <= r * PageSize
  {
    (n + PageSize - 1) / PageSize
  }

  /** `slice((page - 1) * pageSize, page * pageSize)`. */
  function PageOf(data: seq<Tender>, page: nat): (r: seq<Tender>)
    requires page >= 1
    ensures |r| <= PageSize
    ensures (page - 1) * PageSize <= |data| ==> r == data[(page - 1) * PageSize..if page * PageSize <= |data| then page * PageSize else |data|]
    ensures (page - 1) * PageSize >= |data| ==> r == []
  {
    var start := (page - 1) * PageSize;
    if start >= |data| then [] else data[start..if start + PageSize <= |data| then start + PageSize else |data|]
  }

  /** The first `k` pages. */
  function PagesUpTo(data: seq<Tender>, k: nat): seq<Tender> {
    if k == 0 then [] else PagesUpTo(data, k - 1) + PageOf(data, k)
  }

  /** The pages one after another are the prefix of the list they cover; so pages 1 to
      `TotalPages` are the whole list, each of them non-empty, and the pages after them
      are empty. */
  lemma {:induction false} PagesCover(data: seq<Tender>, k: nat)
    ensures PagesUpTo(data, k) == data[..if k * PageSize <= |data| then k * PageSize else |data|]
  {
    if k > 0 {
      PagesCover(data, k - 1);
      var lo := if (k - 1) * PageSize <= |data| then (k - 1) * PageSize else |data|;
      var hi := if k * PageSize <= |data| then k * PageSize else |data|;
      assert data[..hi] == data[..lo] + data[lo..hi];
    }
  }

  lemma PagesOfList(data: seq<Tender>)
    ensures PagesUpTo(data, TotalPages(|data|)) == data
    ensures forall p :: 1 <= p <= TotalPages(|data|) ==> PageOf(data, p) != []
    ensures forall p :: p > TotalPages(|data|) ==> PageOf(data, p) == []
  {
    PagesCover(data, TotalPages(|data|));
  }

  // ---------------------------------------------------------------------------
  // The page state

  /** The state the page keeps: the filters, the current page and the sort. */
  class TenderList {
    var searchTerm: string
    var procurementLevel: string
    var dateRange: DateRange
    var currentPage: nat
    var sortConfig: SortConfig

    ghost predicate Valid()
      reads this
    {
      currentPage >= 1
    }

    /** The initial state: no search, every level, no dates, page 1, newest first. */
    constructor()
      ensures Valid()
      ensures searchTerm == "" && procurementLevel == "all" && dateRange == NoDates
      ensures currentPage == 1 && sortConfig == InitialSort
    {
      searchTerm := "";
      procurementLevel := "all";
      dateRange := NoDates;
      currentPage := 1;
      sortConfig := InitialSort;
    }

    /** `handleSort`: the toggle rule, and back to page 1. */
    method HandleSort(key: SortKey)
      modifies this
      ensures Valid()
      ensures sortConfig == NextSort(old(sortConfig), key) && currentPage == 1
      ensures searchTerm == old(searchTerm) && procurementLevel == old(procurementLevel) && dateRange == old(dateRange)
    {
      sortConfig := NextSort(sortConfig, key);
      currentPage := 1;
    }

    /** `handleResetFilters`: every filter cleared and page 1; the sort is kept. */
    method ResetFilters()
      modifies this
      ensures Valid()
      ensures searchTerm == "" && procurementLevel == "all" && dateRange == NoDates && currentPage == 1
      ensures sortConfig == old(sortConfig)
    {
      searchTerm := "";
      procurementLevel := "all";
      dateRange := NoDates;
      currentPage := 1;
    }

    method SearchChange(value: string)
      modifies this
      ensures Valid()
      ensures searchTerm == value && currentPage == 1
      ensures procurementLevel == old(procurementLevel) && dateRange == old(dateRange) && sortConfig == old(sortConfig)
    {
      searchTerm := value;
      currentPage := 1;
    }

    method ProcurementLevelChange(value: string)
      modifies this
      ensures Valid()
      ensures procurementLevel == value && currentPage == 1
      ensures searchTerm == old(searchTerm) && dateRange == old(dateRange) && sortConfig == old(sortConfig)
    {
      procurementLevel := value;
      currentPage := 1;
    }

    method DateRangeChange(range: DateRange)
      modifies this
      ensures Valid()
      ensures dateRange == range && currentPage == 1
      ensures searchTerm == old(searchTerm) && procurementLevel == old(procurementLevel) && sortConfig == old(sortConfig)
    {
      dateRange := range;
      currentPage := 1;
    }

    /** `setCurrentPage` from the table, which only passes pages from 1 up. */
    method PageChange(page: nat)
      requires page >= 1
      modifies this
      ensures Valid()
      ensures currentPage == page
      ensures searchTerm == old(searchTerm) && procurementLevel == old(procurementLevel)
      ensures dateRange == old(dateRange) && sortConfig == old(sortConfig)
    {
      currentPage := page;
    }

    function Filtered(items: seq<Tender>): seq<Tender>
      reads this
    {
      FilteredData(items, searchTerm, procurementLevel, dateRange, sortConfig)
    }

    /** `paginatedData`: the current page of the filtered list. */
    function Paginated(items: seq<Tender>): (r: seq<Tender>)
      requires Valid()
      reads this
      ensures |r| <= PageSize
      ensures r == PageOf(Filtered(items), currentPage)
    {
      PageOf(Filtered(items), currentPage)
    }
  }
}
