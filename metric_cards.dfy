/** The four metric cards above the tender table: counts of all and of the filtered
    tenders, of the 巨額 ones among each, and the filtered budget total. */
module MetricCards {
  import opened Common
  import opened Numeric
  import opened Tenders
  import opened TenderListClient

  // ---------------------------------------------------------------------------
  // Counts

  /** The tenders whose level is exactly 巨額. */
  predicate IsHuge(t: Tender) {
    t.procurementLevel == Some("巨額")
  }

  function HugeCount(items: seq<Tender>): (n: nat)
    ensures n <= |items|
    ensures n == 0 <==> forall t :: t in items ==> !IsHuge(t)
  {
    FilterMembers(items, IsHuge);
    var r := Filter(items, IsHuge);
    assert r != [] ==> r[0] in r;
    |r|
  }

  /** The count defined tender by tender: none in an empty list, and appending a tender
      adds one exactly when it is 巨額. */
  lemma HugeCountAppend(items: seq<Tender>, t: Tender)
    ensures HugeCount([]) == 0
    ensures HugeCount(items + [t]) == HugeCount(items) + (if IsHuge(t) then 1 else 0)
  {
    FilterConcat(items, [t], IsHuge);
    assert Filter([t], IsHuge) == (if IsHuge(t) then [t] else []) by {
      assert [t][1..] == [];
    }
  }

  /** A sub-multiset of the tenders holds no more 巨額 tenders than the whole. */
  lemma HugeCountMonotone(filtered: seq<Tender>, data: seq<Tender>)
    requires multiset(filtered) <= multiset(data)
    ensures HugeCount(filtered) <= HugeCount(data)
  {
    var a := multiset(Filter(filtered, IsHuge));
    var b := multiset(Filter(data, IsHuge));
    FilterCounts(filtered, IsHuge);
    FilterCounts(data, IsHuge);
    assert a <= b;
    assert b == a + (b - a);
  }

  /** Equal multisets hold equally many 巨額 tenders. */
  lemma HugeCountPermutation(filtered: seq<Tender>, data: seq<Tender>)
    requires multiset(filtered) == multiset(data)
    ensures HugeCount(filtered) == HugeCount(data)
  {
    HugeCountMonotone(filtered, data);
    HugeCountMonotone(data, filtered);
  }

  // ---------------------------------------------------------------------------
  // The budget total

  /** What a tender adds to the total: nothing for a falsy budget or one that reads as
      NaN, its parsed value otherwise. */
  function BudgetOf(t: Tender): (v: real)
    ensures !Truthy(t.budget) ==> v == 0.0
    ensures Truthy(t.budget) && ParsedBudget(t.budget.value).Some? ==> v == ParsedBudget(t.budget.value).value
    ensures Truthy(t.budget) && ParsedBudget(t.budget.value).None? ==> v == 0.0
  {
    if !Truthy(t.budget) then 0.0
    else match ParsedBudget(t.budget.value)
      case None => 0.0
      case Some(num) => num
  }

  /** A tender whose budget counts. */
  predicate HasBudget(t: Tender) {
    Truthy(t.budget) && ParsedBudget(t.budget.value).Some?
  }

  /** The `reduce` over the filtered tenders, from the left, starting at 0. */
  function TotalBudget(items: seq<Tender>): real {
    if items == [] then 0.0 else TotalBudget(items[..|items| - 1]) + BudgetOf(items[|items| - 1])
  }

  lemma TotalBudgetEmpty()
    ensures TotalBudget([]) == 0.0
  {
  }

  /** The total of two lists put together is the sum of their totals. */
  lemma {:induction false} TotalBudgetConcat(a: seq<Tender>, b: seq<Tender>)
    ensures TotalBudget(a + b) == TotalBudget(a) + TotalBudget(b)
  {
    if b != [] {
      assert (a + b)[..|a + b| - 1] == a + b[..|b| - 1];
      TotalBudgetConcat(a, b[..|b| - 1]);
    } else {
      assert a + b == a;
    }
  }

  /** Tenders without a usable budget do not change the total. */
  lemma {:induction false} TotalBudgetSkipsMissing(items: seq<Tender>)
    ensures TotalBudget(items) == TotalBudget(Filter(items, HasBudget))
  {
    if items != [] {
      var rest := items[1..];
      assert items == [items[0]] + rest;
      TotalBudgetConcat([items[0]], rest);
      TotalBudgetSkipsMissing(rest);
      assert TotalBudget([items[0]]) == BudgetOf(items[0]) by {
        assert [items[0]][..0] == [];
      }
      if HasBudget(items[0]) {
        TotalBudgetConcat([items[0]], Filter(rest, HasBudget));
      }
    }
  }

  /** When no usable budget is negative, neither is the total. */
  lemma {:induction false} TotalBudgetNonNegative(items: seq<Tender>)
    requires forall t :: t in items && HasBudget(t) ==> ParsedBudget(t.budget.value).value >= 0.0
    ensures TotalBudget(items) >= 0.0
  {
    if items != [] {
      TotalBudgetNonNegative(items[..|items| - 1]);
      assert items[|items| - 1] in items;
    }
  }

  // ---------------------------------------------------------------------------
  // formatAmount

  /** How an amount is shown: '0', in units of 億 (10^8), of 萬 (10^4), or as is.  The
      digits kept by `toFixed` and `toLocaleString` are not modelled. */
  datatype Amount = Zero | Yi(hundredMillions: real) | Wan(tenThousands: real) | Plain(value: real)

  function FormatAmount(amount: real): (r: Amount)
    ensures r == Zero <==> amount == 0.0
    ensures r.Yi? <==> amount >= 100000000.0
    ensures r.Wan? <==> 10000.0 <= amount < 100000000.0
    ensures r.Plain? <==> amount != 0.0 && amount < 10000.0
    ensures r.Yi? ==> r.hundredMillions * 100000000.0 == amount
    ensures r.Wan? ==> r.tenThousands * 10000.0 == amount
    ensures r.Plain? ==> r.value == amount
  {
    if amount == 0.0 then Zero
    else if amount >= 100000000.0 then Yi(amount / 100000000.0)
    else if amount >= 10000.0 then Wan(amount / 10000.0)
    else Plain(amount)
  }

  /** Amounts from 1 億 upward are shown with at least 1 unit of 億, amounts from 1 萬
      up to 1 億 with between 1 and 10000 units of 萬. */
  lemma FormatAmountUnits(amount: real)
    ensures FormatAmount(amount).Yi? ==> FormatAmount(amount).hundredMillions >= 1.0
    ensures FormatAmount(amount).Wan? ==> 1.0 <= FormatAmount(amount).tenThousands < 10000.0
  {
  }

  // ---------------------------------------------------------------------------
  // The cards

  datatype Metrics = Metrics(
    totalCount: nat,
    filteredCount: nat,
    hugeCount: nat,
    filteredHugeCount: nat,
    totalBudget: real)

  /** `useMetrics` without the count of this week's tenders. */
  function MetricsOf(data: seq<Tender>, filtered: seq<Tender>): (m: Metrics)
    ensures m.totalCount == |data| && m.filteredCount == |filtered|
    ensures m.hugeCount <= m.totalCount && m.filteredHugeCount <= m.filteredCount
  {
    Metrics(|data|, |filtered|, HugeCount(data), HugeCount(filtered), TotalBudget(filtered))
  }

  /** The list counts as filtered exactly when the lengths differ. */
  predicate IsFiltered(data: seq<Tender>, filtered: seq<Tender>) {
    |filtered| != |data|
  }

  datatype CountLabel = FilterResult | AllTenders
  datatype BudgetLabel = FilteredBudget | AllBudget

  /** What the cards show: the first card's label, value and "of n" note, the 巨額 card's
      value and note, and the budget card's label and amount. */
  datatype Cards = Cards(
    countLabel: CountLabel,
    countValue: nat,
    countNote: Option<nat>,
    hugeValue: nat,
    hugeNote: Option<nat>,
    budgetLabel: BudgetLabel,
    budget: Amount)

  function CardsOf(data: seq<Tender>, filtered: seq<Tender>): (c: Cards)
    ensures c.countValue == |filtered|
    ensures c.countLabel == FilterResult <==> IsFiltered(data, filtered)
    ensures c.budgetLabel == FilteredBudget <==> IsFiltered(data, filtered)
    ensures c.countNote == if IsFiltered(data, filtered) then Some(|data|) else None
    ensures c.hugeValue == if IsFiltered(data, filtered) then HugeCount(filtered) else HugeCount(data)
    ensures c.hugeNote.Some? <==> IsFiltered(data, filtered) && HugeCount(filtered) != HugeCount(data)
    ensures c.hugeNote.Some? ==> c.hugeNote.value == HugeCount(data)
    ensures c.budget == FormatAmount(TotalBudget(filtered))
  {
    var m := MetricsOf(data, filtered);
    var isFiltered := IsFiltered(data, filtered);
    Cards(
      if isFiltered then FilterResult else AllTenders,
      m.filteredCount,
      if isFiltered then Some(m.totalCount) else None,
      if isFiltered then m.filteredHugeCount else m.hugeCount,
      if isFiltered && m.filteredHugeCount != m.hugeCount then Some(m.hugeCount) else None,
      if isFiltered then FilteredBudget else AllBudget,
      FormatAmount(m.totalBudget))
  }

  /** For a sub-multiset of the loaded tenders, the 巨額 card never shows more than all
      巨額 tenders, and a note appears only when the filters dropped some of them. */
  lemma {:induction false} FilteredCards(data: seq<Tender>, filtered: seq<Tender>)
    requires multiset(filtered) <= multiset(data)
    ensures CardsOf(data, filtered).hugeValue <= HugeCount(data)
    ensures CardsOf(data, filtered).countValue <= |data|
    ensures CardsOf(data, filtered).hugeNote.Some? ==> CardsOf(data, filtered).hugeValue < HugeCount(data)
  {
    HugeCountMonotone(filtered, data);
    assert |filtered| == |multiset(filtered)| <= |multiset(data)| == |data| by {
      assert multiset(data) == multiset(filtered) + (multiset(data) - multiset(filtered));
    }
  }

  /** On the tender page the cards see the loaded list and the list after its filters. */
  lemma PageCards(items: seq<Tender>, term: string, level: string, range: DateRange, config: SortConfig)
    ensures CardsOf(items, FilteredData(items, term, level, range, config)).hugeValue <= HugeCount(items)
    ensures CardsOf(items, FilteredData(items, term, level, range, config)).countValue <= |items|
  {
    FilteredDataFacts(items, term, level, range, config);
    FilteredCards(items, FilteredData(items, term, level, range, config));
  }

  /** When the filters keep every tender, no card speaks of filtering. */
  lemma UnfilteredCards(data: seq<Tender>, filtered: seq<Tender>)
    requires multiset(filtered) == multiset(data)
    ensures CardsOf(data, filtered).countLabel == AllTenders
    ensures CardsOf(data, filtered).countNote == None && CardsOf(data, filtered).hugeNote == None
    ensures CardsOf(data, filtered).hugeValue == HugeCount(filtered)
  {
    assert |filtered| == |multiset(filtered)| == |multiset(data)| == |data|;
    HugeCountPermutation(filtered, data);
  }
}
