/** The heatmap of average tenure by resignation year and job grade: the distinct
    numeric resignation years ascending, the grades that carry a numeric GRADE_ID
    ordered by their largest GRADE_ID descending, and one cell per (year, grade) that
    has rows with a positive tenure, holding the count and the rounded minimum, maximum
    and average of those tenures. */
module ResignYearHeatmap {
  import opened Common
  import opened Numeric
  import opened Employees

  // ---------------------------------------------------------------------------
  // The year axis and the grade axis

  /** The numeric DATE_RESIGN_YEAR values of the rows, in row order. */
  function ResignYears(emps: seq<Employee>): seq<int> {
    if emps == [] then []
    else
      var e := emps[|emps| - 1];
      ResignYears(emps[..|emps| - 1]) + (if e.resignYear.Some? then [e.resignYear.value] else [])
  }

  /** A row that enters the grade axis: a truthy GRADE_NAME and a numeric GRADE_ID. */
  predicate HasGrade(e: Employee) {
    TruthyText(e.gradeName) && e.gradeId.Some?
  }

  /** The GRADE_NAMEs of the rows that enter the grade axis, in row order. */
  function GradeNamesSeen(emps: seq<Employee>): seq<string> {
    if emps == [] then []
    else
      var e := emps[|emps| - 1];
      GradeNamesSeen(emps[..|emps| - 1]) + (if HasGrade(e) then [e.gradeName.value] else [])
  }

  /** The GRADE_IDs of the rows that enter the grade axis under `name`, in row order. */
  function GradeIdsOf(emps: seq<Employee>, name: string): seq<int> {
    if emps == [] then []
    else
      var e := emps[|emps| - 1];
      GradeIdsOf(emps[..|emps| - 1], name)
        + (if HasGrade(e) && e.gradeName.value == name then [e.gradeId.value] else [])
  }

  /** The GRADE_ID the grade map holds for `name`: the largest of them, if any. */
  function GradeIdOf(emps: seq<Employee>, name: string): Option<int> {
    var ids := GradeIdsOf(emps, name);
    if ids == [] then None else Some(IntMax(ids))
  }

  lemma {:induction false} ResignYearsMembers(emps: seq<Employee>)
    ensures forall y :: y in ResignYears(emps) <==> exists e :: e in emps && e.resignYear == Some(y)
  {
    if emps != [] {
      var n := |emps| - 1;
      ResignYearsMembers(emps[..n]);
      assert emps == emps[..n] + [emps[n]];
    }
  }

  lemma {:induction false} GradeNamesMembers(emps: seq<Employee>)
    ensures forall g :: g in GradeNamesSeen(emps) <==> exists e :: e in emps && HasGrade(e) && e.gradeName == Some(g)
  {
    if emps != [] {
      var n := |emps| - 1;
      GradeNamesMembers(emps[..n]);
      assert emps == emps[..n] + [emps[n]];
    }
  }

  lemma {:induction false} GradeIdsMembers(emps: seq<Employee>, name: string)
    ensures forall id :: id in GradeIdsOf(emps, name) <==>
      exists e :: e in emps && HasGrade(e) && e.gradeName == Some(name) && e.gradeId == Some(id)
  {
    if emps != [] {
      var n := |emps| - 1;
      GradeIdsMembers(emps[..n], name);
      assert emps == emps[..n] + [emps[n]];
    }
  }

  /** A name is on the grade axis exactly when the grade map holds an id for it. */
  lemma {:induction false} GradeSeenIff(emps: seq<Employee>, name: string)
    ensures name in GradeNamesSeen(emps) <==> GradeIdOf(emps, name).Some?
  {
    if emps != [] {
      var n := |emps| - 1;
      GradeSeenIff(emps[..n], name);
    }
  }

  lemma {:induction false} GradeIdsHas(emps: seq<Employee>, name: string, e: Employee)
    requires e in emps && HasGrade(e) && e.gradeName == Some(name)
    ensures e.gradeId.value in GradeIdsOf(emps, name)
  {
    var n := |emps| - 1;
    if emps[n] != e {
      assert e in emps[..n] by {
        assert emps == emps[..n] + [emps[n]];
      }
      GradeIdsHas(emps[..n], name, e);
    }
  }

  /** The id kept for a grade is the largest GRADE_ID among its rows. */
  lemma GradeIdIsLargest(emps: seq<Employee>, name: string)
    requires GradeIdOf(emps, name).Some?
    ensures exists e :: e in emps && HasGrade(e) && e.gradeName == Some(name) && e.gradeId == GradeIdOf(emps, name)
    ensures forall e :: e in emps && HasGrade(e) && e.gradeName == Some(name) ==>
      e.gradeId.value <= GradeIdOf(emps, name).value
  {
    GradeIdsMembers(emps, name);
    var ids := GradeIdsOf(emps, name);
    forall e | e in emps && HasGrade(e) && e.gradeName == Some(name)
      ensures e.gradeId.value <= IntMax(ids)
    {
      GradeIdsHas(emps, name, e);
    }
  }

  /** The map update `if (!has || get < gradeId) set`: the larger of the kept id and the new one. */
  function KeepLarger(kept: Option<int>, id: int): int {
    if kept.None? || kept.value < id then id else kept.value
  }

  lemma GradeIdStep(pre: seq<Employee>, e: Employee, n: string)
    ensures GradeIdOf(pre + [e], n) ==
      if HasGrade(e) && e.gradeName.value == n then Some(KeepLarger(GradeIdOf(pre, n), e.gradeId.value))
      else GradeIdOf(pre, n)
  {
    assert (pre + [e])[..|pre|] == pre;
    var ids := GradeIdsOf(pre, n);
    if HasGrade(e) && e.gradeName.value == n {
      assert GradeIdsOf(pre + [e], n) == ids + [e.gradeId.value];
      if ids != [] {
        IntMaxAppend(ids, e.gradeId.value);
      } else {
        assert ids + [e.gradeId.value] == [e.gradeId.value];
      }
    } else {
      assert GradeIdsOf(pre + [e], n) == ids + [];
      assert ids + [] == ids;
    }
  }

  /** `m` is the grade map built from `emps`: an entry for each name on the grade
      axis, holding its largest id. */
  ghost predicate GradeMapOf(emps: seq<Employee>, m: map<string, int>) {
    && (forall n :: n in m <==> GradeIdOf(emps, n).Some?)
    && (forall n :: n in m ==> GradeIdOf(emps, n) == Some(m[n]))
  }

  lemma YearSetStep(pre: seq<Employee>, e: Employee, yearOrder: seq<int>)
    requires yearOrder == Dedup(ResignYears(pre))
    ensures Dedup(ResignYears(pre + [e])) ==
      if e.resignYear.Some? && e.resignYear.value !in yearOrder then yearOrder + [e.resignYear.value] else yearOrder
  {
    assert (pre + [e])[..|pre|] == pre;
    if e.resignYear.Some? {
      DedupAppend(ResignYears(pre), e.resignYear.value);
    } else {
      assert ResignYears(pre + [e]) == ResignYears(pre) + [];
      assert ResignYears(pre) + [] == ResignYears(pre);
    }
  }

  lemma GradeOrderStep(pre: seq<Employee>, e: Employee, gradeOrder: seq<string>, m: map<string, int>)
    requires gradeOrder == Dedup(GradeNamesSeen(pre)) && GradeMapOf(pre, m)
    ensures Dedup(GradeNamesSeen(pre + [e])) ==
      if HasGrade(e) && e.gradeName.value !in m then gradeOrder + [e.gradeName.value] else gradeOrder
  {
    assert (pre + [e])[..|pre|] == pre;
    if HasGrade(e) {
      DedupAppend(GradeNamesSeen(pre), e.gradeName.value);
      GradeSeenIff(pre, e.gradeName.value);
    } else {
      assert GradeNamesSeen(pre + [e]) == GradeNamesSeen(pre) + [];
      assert GradeNamesSeen(pre) + [] == GradeNamesSeen(pre);
    }
  }

  lemma GradeMapStep(pre: seq<Employee>, e: Employee, m: map<string, int>)
    requires GradeMapOf(pre, m)
    ensures HasGrade(e) ==>
      var name, id := e.gradeName.value, e.gradeId.value;
      GradeMapOf(pre + [e], if name !in m || m[name] < id then m[name := id] else m)
    ensures !HasGrade(e) ==> GradeMapOf(pre + [e], m)
  {
    forall n ensures GradeIdOf(pre + [e], n) ==
      if HasGrade(e) && e.gradeName.value == n then Some(KeepLarger(GradeIdOf(pre, n), e.gradeId.value))
      else GradeIdOf(pre, n)
    {
      GradeIdStep(pre, e, n);
    }
  }

  /** The first loop: the Set of years and the Map from grade name to its largest id,
      with the insertion order of each. */
  method CollectAxes(emps: seq<Employee>) returns (yearOrder: seq<int>, gradeOrder: seq<string>, gradeIds: map<string, int>)
    ensures yearOrder == Dedup(ResignYears(emps))
    ensures gradeOrder == Dedup(GradeNamesSeen(emps))
    ensures GradeMapOf(emps, gradeIds)
  {
    yearOrder, gradeOrder, gradeIds := [], [], map[];
    for i := 0 to |emps|
      invariant yearOrder == Dedup(ResignYears(emps[..i]))
      invariant gradeOrder == Dedup(GradeNamesSeen(emps[..i]))
      invariant GradeMapOf(emps[..i], gradeIds)
    {
      var e := emps[i];
      assert emps[..i + 1] == emps[..i] + [e];
      YearSetStep(emps[..i], e, yearOrder);
      GradeOrderStep(emps[..i], e, gradeOrder, gradeIds);
      GradeMapStep(emps[..i], e, gradeIds);
      if e.resignYear.Some? {
        if e.resignYear.value !in yearOrder {
          yearOrder := yearOrder + [e.resignYear.value];
        }
      }
      if TruthyText(e.gradeName) && e.gradeId.Some? {
        var name, id := e.gradeName.value, e.gradeId.value;
        if name !in gradeIds || gradeIds[name] < id {
          if name !in gradeIds {
            gradeOrder := gradeOrder + [name];
          }
          gradeIds := gradeIds[name := id];
        }
      }
    }
    assert emps[..|emps|] == emps;
  }

  /** The year axis: `Array.from(resignYears).sort((a, b) => a - b)`. */
  function SortedYears(emps: seq<Employee>): seq<int> {
    SortBy(Dedup(ResignYears(emps)), IntLess)
  }

  /** The comparator `(a, b) => b[1] - a[1]`: a larger id goes first. */
  function IdDescending(a: (string, int), b: (string, int)): bool {
    b.1 - a.1 < 0
  }

  function EntryName(a: (string, int)): string { a.0 }

  /** The id the grade map holds for `name` (0 for a name it does not hold). */
  function KeptId(emps: seq<Employee>, name: string): int {
    GradeIdOf(emps, name).GetOr(0)
  }

  function GradeEntry(emps: seq<Employee>, name: string): (string, int) {
    (name, KeptId(emps, name))
  }

  /** `Array.from(gradeMap.entries())`. */
  function GradeEntries(emps: seq<Employee>): seq<(string, int)> {
    MapSeq(Dedup(GradeNamesSeen(emps)), (n: string) => GradeEntry(emps, n))
  }

  /** The grade axis: the entries sorted by id descending, then their names. */
  function SortedGrades(emps: seq<Employee>): seq<string> {
    MapSeq(SortedEntries(emps), EntryName)
  }

  /** The distinct numeric resignation years, strictly ascending. */
  lemma YearAxis(emps: seq<Employee>)
    ensures StrictlyIncreasing(SortedYears(emps))
    ensures forall y :: y in SortedYears(emps) <==> exists e :: e in emps && e.resignYear == Some(y)
  {
    ResignYearsMembers(emps);
    SortDistinctInts(Dedup(ResignYears(emps)));
  }

  lemma IdDescendingIsStrict()
    ensures StrictOrder(IdDescending)
  {
  }

  /** The grade entries in axis order. */
  function SortedEntries(emps: seq<Employee>): seq<(string, int)> {
    SortBy(GradeEntries(emps), IdDescending)
  }

  /** Every sorted entry is the entry of a name on the axis. */
  lemma SortedEntriesOnAxis(emps: seq<Employee>)
    ensures forall k :: 0 <= k < |SortedEntries(emps)| ==>
      SortedEntries(emps)[k].0 in GradeNamesSeen(emps) && SortedEntries(emps)[k] == GradeEntry(emps, SortedEntries(emps)[k].0)
  {
    var names := Dedup(GradeNamesSeen(emps));
    var es := GradeEntries(emps);
    var s := SortedEntries(emps);
    forall k | 0 <= k < |s|
      ensures s[k].0 in GradeNamesSeen(emps) && s[k] == GradeEntry(emps, s[k].0)
    {
      assert s[k] in multiset(es);
      var m :| 0 <= m < |es| && es[m] == s[k];
      assert es[m] == GradeEntry(emps, names[m]);
    }
  }

  /** The grade names on the axis are distinct. */
  lemma GradeAxisDistinct(emps: seq<Employee>)
    ensures Distinct(SortedGrades(emps))
  {
    var names := Dedup(GradeNamesSeen(emps));
    var es := GradeEntries(emps);
    var s := SortedEntries(emps);
    var gs := SortedGrades(emps);
    assert Distinct(es) by {
      forall i, j | 0 <= i < j < |es| ensures es[i] != es[j] {
        assert es[i].0 == names[i] && es[j].0 == names[j];
      }
    }
    PermutationDistinct(es, s);
    SortedEntriesOnAxis(emps);
    forall i, j | 0 <= i < j < |gs| ensures gs[i] != gs[j] {
      assert gs[i] == s[i].0 && gs[j] == s[j].0;
      assert s[i] != s[j];
    }
  }

  lemma GradeOnAxisSeen(emps: seq<Employee>, k: nat)
    requires k < |SortedGrades(emps)|
    ensures SortedGrades(emps)[k] in GradeNamesSeen(emps)
  {
    SortedEntriesOnAxis(emps);
    assert SortedGrades(emps)[k] == SortedEntries(emps)[k].0;
  }

  lemma SeenOnAxis(emps: seq<Employee>, g: string)
    requires g in GradeNamesSeen(emps)
    ensures g in SortedGrades(emps)
  {
    var names := Dedup(GradeNamesSeen(emps));
    var es := GradeEntries(emps);
    var k :| 0 <= k < |names| && names[k] == g;
    var e := es[k];
    assert e == GradeEntry(emps, g);
    var s := SortedEntries(emps);
    PermutationMember(es, s, e);
    var m :| 0 <= m < |s| && s[m] == e;
    SortedGradeAt(emps, m);
  }

  /** The axis holds the names of the sorted entries, position by position. */
  lemma SortedGradeAt(emps: seq<Employee>, m: nat)
    requires m < |SortedEntries(emps)|
    ensures |SortedGrades(emps)| == |SortedEntries(emps)| && SortedGrades(emps)[m] == SortedEntries(emps)[m].0
  {
  }

  /** A name is on the axis exactly when it was seen. */
  lemma GradeOnAxis(emps: seq<Employee>, g: string)
    ensures g in SortedGrades(emps) <==> g in GradeNamesSeen(emps)
  {
    if g in SortedGrades(emps) {
      var k :| 0 <= k < |SortedGrades(emps)| && SortedGrades(emps)[k] == g;
      GradeOnAxisSeen(emps, k);
    }
    if g in GradeNamesSeen(emps) {
      SeenOnAxis(emps, g);
    }
  }

  /** A grade is on the axis exactly when some row has that truthy name and a numeric id. */
  lemma GradeAxisMembers(emps: seq<Employee>)
    ensures forall g :: g in SortedGrades(emps) <==> exists e :: e in emps && HasGrade(e) && e.gradeName == Some(g)
  {
    GradeNamesMembers(emps);
    forall g ensures g in SortedGrades(emps) <==> g in GradeNamesSeen(emps) {
      GradeOnAxis(emps, g);
    }
  }

  /** Both grades hold an id, and the second's is not larger. */
  predicate IdNotBelow(emps: seq<Employee>, a: string, b: string) {
    GradeIdOf(emps, a).Some? && GradeIdOf(emps, b).Some? && GradeIdOf(emps, b).value <= GradeIdOf(emps, a).value
  }

  /** The grades on the axis all hold an id, and go by it, largest first. */
  lemma GradeAxisOrdered(emps: seq<Employee>)
    ensures forall i, j :: 0 <= i < j < |SortedGrades(emps)| ==> IdNotBelow(emps, SortedGrades(emps)[i], SortedGrades(emps)[j])
  {
    forall i, j | 0 <= i < j < |SortedGrades(emps)| ensures IdNotBelow(emps, SortedGrades(emps)[i], SortedGrades(emps)[j]) {
      GradeAxisPair(emps, i, j);
    }
  }

  lemma GradeAxisPair(emps: seq<Employee>, i: nat, j: nat)
    requires i < j < |SortedGrades(emps)|
    ensures GradeIdOf(emps, SortedGrades(emps)[i]).Some? && GradeIdOf(emps, SortedGrades(emps)[j]).Some?
    ensures GradeIdOf(emps, SortedGrades(emps)[j]).value <= GradeIdOf(emps, SortedGrades(emps)[i]).value
  {
    var es := GradeEntries(emps);
    var s := SortedEntries(emps);
    var gs := SortedGrades(emps);
    SortedEntriesOnAxis(emps);
    IdDescendingIsStrict();
    SortBySorted(es, IdDescending);
    assert gs[i] == s[i].0 && gs[j] == s[j].0;
    assert s[i] == GradeEntry(emps, gs[i]) && s[j] == GradeEntry(emps, gs[j]);
    GradeSeenIff(emps, gs[i]);
    GradeSeenIff(emps, gs[j]);
    assert !IdDescending(s[j], s[i]);
  }

  // ---------------------------------------------------------------------------
  // The cells

  /** A row that enters a cell: a numeric year, a truthy GRADE_NAME and a positive tenure. */
  predicate Contributes(e: Employee) {
    e.resignYear.Some? && TruthyText(e.gradeName) && NumericTenure(e) > 0.0
  }

  /** A row that enters the cell of year `y` and grade `g`. */
  predicate InCell(e: Employee, y: int, g: string) {
    Contributes(e) && e.resignYear.value == y && e.gradeName.value == g
  }

  /** The `tenures` list the second loop keeps for the cell of (y, g). */
  function CellTenures(emps: seq<Employee>, y: int, g: string): seq<real> {
    if emps == [] then []
    else
      var e := emps[|emps| - 1];
      CellTenures(emps[..|emps| - 1], y, g) + (if InCell(e, y, g) then [NumericTenure(e)] else [])
  }

  lemma CellTenuresStep(pre: seq<Employee>, e: Employee, y: int, g: string)
    ensures CellTenures(pre + [e], y, g) == CellTenures(pre, y, g) + (if InCell(e, y, g) then [NumericTenure(e)] else [])
  {
    assert (pre + [e])[..|pre|] == pre;
  }

  /** A cell has tenures exactly when some row enters it. */
  lemma {:induction false} CellTenuresNonEmpty(emps: seq<Employee>, y: int, g: string)
    ensures CellTenures(emps, y, g) != [] <==> exists e :: e in emps && InCell(e, y, g)
  {
    if emps != [] {
      var n := |emps| - 1;
      CellTenuresNonEmpty(emps[..n], y, g);
      assert emps == emps[..n] + [emps[n]];
    }
  }

  lemma {:induction false} CellTenuresPositive(emps: seq<Employee>, y: int, g: string)
    ensures forall k :: 0 <= k < |CellTenures(emps, y, g)| ==> CellTenures(emps, y, g)[k] > 0.0
  {
    if emps != [] {
      CellTenuresPositive(emps[..|emps| - 1], y, g);
    }
  }

  /** The running record of a cell. */
  datatype CellStats = CellStats(totalTenure: real, count: nat, minTenure: real, maxTenure: real)

  /** The record of a cell whose tenures are `ts`. */
  function StatsOf(ts: seq<real>): CellStats
    requires ts != []
  {
    CellStats(Sum(ts), |ts|, Min(ts), Max(ts))
  }

  /** One row's update of the record: total and count grow, min and max follow. */
  function AddTenure(s: CellStats, t: real): CellStats {
    CellStats(s.totalTenure + t, s.count + 1,
      if t < s.minTenure then t else s.minTenure,
      if t > s.maxTenure then t else s.maxTenure)
  }

  lemma StatsAppend(ts: seq<real>, t: real)
    requires ts != []
    ensures StatsOf(ts + [t]) == AddTenure(StatsOf(ts), t)
  {
    assert (ts + [t])[..|ts|] == ts;
    MinAppend(ts, t);
    MaxAppend(ts, t);
  }

  lemma StatsSingle(t: real)
    ensures StatsOf([t]) == AddTenure(CellStats(0.0, 0, t, t), t)
  {
    assert [t][..0] == [];
    assert Sum([t]) == Sum([]) + t;
  }

  /** `stats` holds a record for exactly the cells of `emps` that have rows, and that
      record is the one of the cell's tenures. */
  ghost predicate CellMapOf(emps: seq<Employee>, stats: map<(int, string), CellStats>) {
    && (forall y, g :: (y, g) in stats <==> CellTenures(emps, y, g) != [])
    && (forall y, g :: (y, g) in stats ==> stats[(y, g)] == StatsOf(CellTenures(emps, y, g)))
  }

  lemma CellMapSkip(pre: seq<Employee>, e: Employee, stats: map<(int, string), CellStats>)
    requires CellMapOf(pre, stats) && !Contributes(e)
    ensures CellMapOf(pre + [e], stats)
  {
    forall y, g ensures CellTenures(pre + [e], y, g) == CellTenures(pre, y, g) {
      CellTenuresStep(pre, e, y, g);
      assert CellTenures(pre, y, g) + [] == CellTenures(pre, y, g);
    }
  }

  /** The record of a row's cell, created on first use and then updated. */
  lemma CellMapAdd(pre: seq<Employee>, e: Employee, stats: map<(int, string), CellStats>,
                   key: (int, string), t: real, started: map<(int, string), CellStats>)
    requires CellMapOf(pre, stats) && Contributes(e)
    requires key == (e.resignYear.value, e.gradeName.value) && t == NumericTenure(e)
    requires started == if key !in stats then stats[key := CellStats(0.0, 0, t, t)] else stats
    ensures CellMapOf(pre + [e], started[key := AddTenure(started[key], t)])
  {
    var ts := CellTenures(pre, key.0, key.1);
    CellTenuresStep(pre, e, key.0, key.1);
    if ts == [] {
      StatsSingle(t);
      assert [] + [t] == [t];
    } else {
      StatsAppend(ts, t);
    }
    forall y, g | (y, g) != key ensures CellTenures(pre + [e], y, g) == CellTenures(pre, y, g) {
      CellTenuresStep(pre, e, y, g);
      assert CellTenures(pre, y, g) + [] == CellTenures(pre, y, g);
    }
  }

  /** The second loop: the record of every (year, grade) that a row enters.  A new
      record starts at Infinity and -Infinity for min and max, which the first tenure
      replaces; here it starts at that first tenure, which gives the same record. */
  method CollectCells(emps: seq<Employee>) returns (stats: map<(int, string), CellStats>)
    ensures CellMapOf(emps, stats)
  {
    stats := map[];
    for i := 0 to |emps|
      invariant CellMapOf(emps[..i], stats)
    {
      var e := emps[i];
      assert emps[..i + 1] == emps[..i] + [e];
      var tenure := NumericTenure(e);
      if e.resignYear.Some? && TruthyText(e.gradeName) && tenure > 0.0 {
        var key := (e.resignYear.value, e.gradeName.value);
        ghost var before := stats;
        if key !in stats {
          stats := stats[key := CellStats(0.0, 0, tenure, tenure)];
        }
        CellMapAdd(emps[..i], e, before, key, tenure, stats);
        stats := stats[key := AddTenure(stats[key], tenure)];
      } else {
        CellMapSkip(emps[..i], e, stats);
      }
    }
    assert emps[..|emps|] == emps;
  }

  /** One heatmap point: `[yearIndex, gradeIndex, roundedAvg]`. */
  datatype Cell = Cell(yearIndex: nat, gradeIndex: nat, avgTenure: real)

  /** The tooltip record of a point. */
  datatype Detail = Detail(count: nat, minTenure: real, maxTenure: real, avgTenure: real)

  function AvgOf(c: Cell): real { c.avgTenure }

  /** The tooltip record of a cell whose tenures are `ts`. */
  function DetailOf(ts: seq<real>): Detail
    requires ts != []
  {
    Detail(|ts|, Round2(Min(ts)), Round2(Max(ts)), Round2(Mean(ts)))
  }

  /** The rounded average tenure of the cell (y, g), when it has rows. */
  function CellAverage(emps: seq<Employee>, y: int, g: string): Option<real> {
    var ts := CellTenures(emps, y, g);
    if ts == [] then None else Some(Round2(Mean(ts)))
  }

  /** The tooltip record of the cell (y, g), when it has rows. */
  function CellDetail(emps: seq<Employee>, y: int, g: string): Option<Detail> {
    var ts := CellTenures(emps, y, g);
    if ts == [] then None else Some(DetailOf(ts))
  }

  function Averages(emps: seq<Employee>): (int, string) -> Option<real> {
    (y: int, g: string) => CellAverage(emps, y, g)
  }

  function Details(emps: seq<Employee>): (int, string) -> Option<Detail> {
    (y: int, g: string) => CellDetail(emps, y, g)
  }

  /** The point at (yi, gi), if the cell there has an average. */
  function CellAt(yi: nat, gi: nat, a: Option<real>): seq<Cell> {
    if a.Some? then [Cell(yi, gi, a.value)] else []
  }

  /** The points of year index `yi` for the first `m` grades, in grade order. */
  function RowCells(yi: nat, years: seq<int>, grades: seq<string>, avg: (int, string) -> Option<real>, m: nat): seq<Cell>
    requires yi < |years| && m <= |grades|
  {
    if m == 0 then []
    else RowCells(yi, years, grades, avg, m - 1) + CellAt(yi, m - 1, avg(years[yi], grades[m - 1]))
  }

  /** The points of the first `n` years, year by year. */
  function CellsUpTo(years: seq<int>, grades: seq<string>, avg: (int, string) -> Option<real>, n: nat): seq<Cell>
    requires n <= |years|
  {
    if n == 0 then []
    else CellsUpTo(years, grades, avg, n - 1) + RowCells(n - 1, years, grades, avg, |grades|)
  }

  /** All the points: every year, and within it every grade, whose cell has an average. */
  function CellsOf(years: seq<int>, grades: seq<string>, avg: (int, string) -> Option<real>): seq<Cell> {
    CellsUpTo(years, grades, avg, |years|)
  }

  /** The rounded average of a record with a positive count. */
  function RecordAverage(s: CellStats): real
    requires s.count > 0
  {
    Round2(s.totalTenure / s.count as real)
  }

  /** The tooltip record built from a record with a positive count. */
  function RecordDetail(s: CellStats): Detail
    requires s.count > 0
  {
    Detail(s.count, Round2(s.minTenure), Round2(s.maxTenure), RecordAverage(s))
  }

  predicate HasRecord(stats: map<(int, string), CellStats>, y: int, g: string) {
    (y, g) in stats && stats[(y, g)].count > 0
  }

  /** The records in `stats` give the averages `avg` and the tooltip records `det`:
      the rounded quotient and the rounded min and max where a record with a positive
      count exists, nothing elsewhere. */
  ghost predicate StatsAgree(stats: map<(int, string), CellStats>, avg: (int, string) -> Option<real>, det: (int, string) -> Option<Detail>) {
    forall y, g ::
      if HasRecord(stats, y, g) then
        avg(y, g) == Some(RecordAverage(stats[(y, g)])) && det(y, g) == Some(RecordDetail(stats[(y, g)]))
      else avg(y, g).None? && det(y, g).None?
  }

  lemma StatsAgreeOf(emps: seq<Employee>, stats: map<(int, string), CellStats>)
    requires CellMapOf(emps, stats)
    ensures StatsAgree(stats, Averages(emps), Details(emps))
  {
    forall y, g ensures
      if HasRecord(stats, y, g) then
        Averages(emps)(y, g) == Some(RecordAverage(stats[(y, g)])) && Details(emps)(y, g) == Some(RecordDetail(stats[(y, g)]))
      else Averages(emps)(y, g).None? && Details(emps)(y, g).None?
    {
      var ts := CellTenures(emps, y, g);
      assert Averages(emps)(y, g) == CellAverage(emps, y, g);
      assert Details(emps)(y, g) == CellDetail(emps, y, g);
      if (y, g) in stats {
        assert stats[(y, g)] == StatsOf(ts);
      }
    }
  }

  lemma StatsAgreeAt(stats: map<(int, string), CellStats>, avg: (int, string) -> Option<real>,
                     det: (int, string) -> Option<Detail>, y: int, g: string)
    requires StatsAgree(stats, avg, det)
    ensures HasRecord(stats, y, g) ==>
      avg(y, g) == Some(RecordAverage(stats[(y, g)])) && det(y, g) == Some(RecordDetail(stats[(y, g)]))
    ensures !HasRecord(stats, y, g) ==> avg(y, g).None? && det(y, g).None?
  {
  }

  /** The tooltip records of the cells with a record before (ya, gb) in year-major order. */
  ghost predicate DetailsUpTo(details: map<(nat, nat), Detail>, years: seq<int>, grades: seq<string>,
                              det: (int, string) -> Option<Detail>, ya: nat, gb: nat) {
    && (forall a: nat, b: nat :: (a, b) in details <==>
      (a < ya || (a == ya && b < gb)) && a < |years| && b < |grades| && det(years[a], grades[b]).Some?)
    && (forall a: nat, b: nat :: (a, b) in details ==>
      a < |years| && b < |grades| && det(years[a], grades[b]) == Some(details[(a, b)]))
  }

  lemma DetailsAdd(details: map<(nat, nat), Detail>, years: seq<int>, grades: seq<string>,
                   det: (int, string) -> Option<Detail>, yi: nat, gi: nat)
    requires yi < |years| && gi < |grades| && det(years[yi], grades[gi]).Some?
    requires DetailsUpTo(details, years, grades, det, yi, gi)
    ensures DetailsUpTo(details[(yi, gi) := det(years[yi], grades[gi]).value], years, grades, det, yi, gi + 1)
  {
  }

  lemma DetailsSkip(details: map<(nat, nat), Detail>, years: seq<int>, grades: seq<string>,
                    det: (int, string) -> Option<Detail>, yi: nat, gi: nat)
    requires yi < |years| && gi < |grades| && det(years[yi], grades[gi]).None?
    requires DetailsUpTo(details, years, grades, det, yi, gi)
    ensures DetailsUpTo(details, years, grades, det, yi, gi + 1)
  {
  }

  lemma DetailsNextYear(details: map<(nat, nat), Detail>, years: seq<int>, grades: seq<string>,
                        det: (int, string) -> Option<Detail>, yi: nat)
    requires DetailsUpTo(details, years, grades, det, yi, |grades|)
    ensures DetailsUpTo(details, years, grades, det, yi + 1, 0)
  {
  }

  /** `values` holds the average of each point of `data`. */
  predicate ValuesMatch(values: seq<real>, data: seq<Cell>) {
    |values| == |data| && forall k :: 0 <= k < |data| ==> values[k] == data[k].avgTenure
  }

  /** The points and values emitted before grade `gi` of year `yi`. */
  ghost predicate EmittedUpTo(data: seq<Cell>, values: seq<real>, years: seq<int>, grades: seq<string>,
                              avg: (int, string) -> Option<real>, yi: nat, gi: nat)
    requires yi < |years| && gi <= |grades|
  {
    data == CellsUpTo(years, grades, avg, yi) + RowCells(yi, years, grades, avg, gi) && ValuesMatch(values, data)
  }

  lemma EmitRowStart(data: seq<Cell>, values: seq<real>, years: seq<int>, grades: seq<string>,
                     avg: (int, string) -> Option<real>, yi: nat)
    requires yi < |years| && data == CellsUpTo(years, grades, avg, yi) && ValuesMatch(values, data)
    ensures EmittedUpTo(data, values, years, grades, avg, yi, 0)
  {
    assert data + [] == data;
  }

  lemma EmitAdd(data: seq<Cell>, values: seq<real>, years: seq<int>, grades: seq<string>,
                avg: (int, string) -> Option<real>, yi: nat, gi: nat, a: real)
    requires yi < |years| && gi < |grades| && avg(years[yi], grades[gi]) == Some(a)
    requires EmittedUpTo(data, values, years, grades, avg, yi, gi)
    ensures EmittedUpTo(data + [Cell(yi, gi, a)], values + [a], years, grades, avg, yi, gi + 1)
  {
    var pre := CellsUpTo(years, grades, avg, yi);
    var row := RowCells(yi, years, grades, avg, gi);
    assert RowCells(yi, years, grades, avg, gi + 1) == row + [Cell(yi, gi, a)];
    assert (pre + row) + [Cell(yi, gi, a)] == pre + (row + [Cell(yi, gi, a)]);
  }

  lemma EmitSkip(data: seq<Cell>, values: seq<real>, years: seq<int>, grades: seq<string>,
                 avg: (int, string) -> Option<real>, yi: nat, gi: nat)
    requires yi < |years| && gi < |grades| && avg(years[yi], grades[gi]).None?
    requires EmittedUpTo(data, values, years, grades, avg, yi, gi)
    ensures EmittedUpTo(data, values, years, grades, avg, yi, gi + 1)
  {
    assert RowCells(yi, years, grades, avg, gi + 1) == RowCells(yi, years, grades, avg, gi) + [];
  }

  lemma EmitRowEnd(data: seq<Cell>, values: seq<real>, years: seq<int>, grades: seq<string>,
                   avg: (int, string) -> Option<real>, yi: nat)
    requires yi < |years| && EmittedUpTo(data, values, years, grades, avg, yi, |grades|)
    ensures data == CellsUpTo(years, grades, avg, yi + 1) && ValuesMatch(values, data)
  {
  }

  lemma ValuesAreAverages(values: seq<real>, data: seq<Cell>)
    requires ValuesMatch(values, data)
    ensures values == MapSeq(data, AvgOf)
  {
  }

  lemma DetailsDone(details: map<(nat, nat), Detail>, years: seq<int>, grades: seq<string>,
                    det: (int, string) -> Option<Detail>)
    requires DetailsUpTo(details, years, grades, det, |years|, 0)
    ensures forall a: nat, b: nat :: (a, b) in details <==>
      a < |years| && b < |grades| && det(years[a], grades[b]).Some?
    ensures forall a: nat, b: nat :: (a, b) in details ==>
      a < |years| && b < |grades| && det(years[a], grades[b]) == Some(details[(a, b)])
  {
  }

  /** The inner loop of the third loop: the points and tooltip records of year index
      `yi`, grade by grade, appended to those of the earlier years. */
  method EmitRow(years: seq<int>, grades: seq<string>, stats: map<(int, string), CellStats>,
                 ghost avg: (int, string) -> Option<real>, ghost det: (int, string) -> Option<Detail>, yi: nat,
                 data0: seq<Cell>, values0: seq<real>, details0: map<(nat, nat), Detail>)
      returns (data: seq<Cell>, values: seq<real>, details: map<(nat, nat), Detail>)
    requires StatsAgree(stats, avg, det) && yi < |years|
    requires data0 == CellsUpTo(years, grades, avg, yi) && ValuesMatch(values0, data0)
    requires DetailsUpTo(details0, years, grades, det, yi, 0)
    ensures data == CellsUpTo(years, grades, avg, yi + 1) && ValuesMatch(values, data)
    ensures DetailsUpTo(details, years, grades, det, yi + 1, 0)
  {
    data, values, details := data0, values0, details0;
    EmitRowStart(data, values, years, grades, avg, yi);
    for gi := 0 to |grades|
      invariant EmittedUpTo(data, values, years, grades, avg, yi, gi)
      invariant DetailsUpTo(details, years, grades, det, yi, gi)
    {
      var key := (years[yi], grades[gi]);
      StatsAgreeAt(stats, avg, det, years[yi], grades[gi]);
      if key in stats && stats[key].count > 0 {
        var s := stats[key];
        var avgTenure := RecordAverage(s);
        DetailsAdd(details, years, grades, det, yi, gi);
        EmitAdd(data, values, years, grades, avg, yi, gi, avgTenure);
        data := data + [Cell(yi, gi, avgTenure)];
        values := values + [avgTenure];
        details := details[(yi, gi) := RecordDetail(s)];
      } else {
        DetailsSkip(details, years, grades, det, yi, gi);
        EmitSkip(data, values, years, grades, avg, yi, gi);
      }
    }
    EmitRowEnd(data, values, years, grades, avg, yi);
    DetailsNextYear(details, years, grades, det, yi);
  }

  /** The third loop: for every year and, within it, every grade, a point and a
      tooltip record for each cell that has a record with a positive count. */
  method EmitCells(years: seq<int>, grades: seq<string>, stats: map<(int, string), CellStats>,
                   ghost avg: (int, string) -> Option<real>, ghost det: (int, string) -> Option<Detail>)
      returns (data: seq<Cell>, values: seq<real>, details: map<(nat, nat), Detail>)
    requires StatsAgree(stats, avg, det)
    ensures data == CellsOf(years, grades, avg)
    ensures values == MapSeq(data, AvgOf)
    ensures forall a: nat, b: nat :: (a, b) in details <==>
      a < |years| && b < |grades| && det(years[a], grades[b]).Some?
    ensures forall a: nat, b: nat :: (a, b) in details ==>
      a < |years| && b < |grades| && det(years[a], grades[b]) == Some(details[(a, b)])
  {
    data, values, details := [], [], map[];
    for yi := 0 to |years|
      invariant data == CellsUpTo(years, grades, avg, yi) && ValuesMatch(values, data)
      invariant DetailsUpTo(details, years, grades, det, yi, 0)
    {
      data, values, details := EmitRow(years, grades, stats, avg, det, yi, data, values, details);
    }
    ValuesAreAverages(values, data);
    DetailsDone(details, years, grades, det);
  }

  /** The grade axis from the collected names and ids: each name paired with its id,
      sorted by id descending, then the names. */
  method SortGradeAxis(emps: seq<Employee>, gradeOrder: seq<string>, gradeIds: map<string, int>)
    returns (sortedGrades: seq<string>)
    requires gradeOrder == Dedup(GradeNamesSeen(emps))
    requires GradeMapOf(emps, gradeIds)
    ensures sortedGrades == SortedGrades(emps)
  {
    assert forall k :: 0 <= k < |gradeOrder| ==> gradeOrder[k] in gradeIds by {
      forall k | 0 <= k < |gradeOrder| ensures gradeOrder[k] in gradeIds {
        GradeSeenIff(emps, gradeOrder[k]);
      }
    }
    var entries := seq(|gradeOrder|, k requires 0 <= k < |gradeOrder| => (gradeOrder[k], gradeIds[gradeOrder[k]]));
    assert entries == GradeEntries(emps);
    sortedGrades := MapSeq(SortBy(entries, IdDescending), EntryName);
  }

  /** What the memo returns when there are rows. */
  datatype Heatmap = Heatmap(
    years: seq<int>,
    grades: seq<string>,
    data: seq<Cell>,
    values: seq<real>,
    details: map<(nat, nat), Detail>)

  /** The memo: null for no rows; otherwise the two axes, the points, their values
      (or `[0]` when there are none) and the tooltip records by point index. */
  method BuildHeatmap(emps: seq<Employee>) returns (r: Option<Heatmap>)
    ensures r.None? <==> emps == []
    ensures r.Some? ==> r.value.years == SortedYears(emps) && r.value.grades == SortedGrades(emps)
    ensures r.Some? ==> r.value.data == CellsOf(r.value.years, r.value.grades, Averages(emps))
    ensures r.Some? ==> r.value.values == if r.value.data == [] then [0.0] else MapSeq(r.value.data, AvgOf)
    ensures r.Some? ==> forall a: nat, b: nat :: (a, b) in r.value.details <==>
      a < |r.value.years| && b < |r.value.grades| && CellTenures(emps, r.value.years[a], r.value.grades[b]) != []
    ensures r.Some? ==> forall a: nat, b: nat :: (a, b) in r.value.details ==>
      a < |r.value.years| && b < |r.value.grades| &&
      CellDetail(emps, r.value.years[a], r.value.grades[b]) == Some(r.value.details[(a, b)])
  {
    if emps == [] {
      return None;
    }
    var yearOrder, gradeOrder, gradeIds := CollectAxes(emps);
    var sortedYears := SortBy(yearOrder, IntLess);
    var sortedGrades := SortGradeAxis(emps, gradeOrder, gradeIds);
    var stats := CollectCells(emps);
    StatsAgreeOf(emps, stats);
    var data, values, details := EmitCells(sortedYears, sortedGrades, stats, Averages(emps), Details(emps));
    r := Some(Heatmap(sortedYears, sortedGrades, data, if |values| > 0 then values else [0.0], details));
  }

  /** A tooltip's count is at least one, and its rounded minimum, average and maximum
      are ordered and not negative. */
  lemma DetailBounds(emps: seq<Employee>, y: int, g: string)
    requires CellDetail(emps, y, g).Some?
    ensures var d := CellDetail(emps, y, g).value;
      d.count >= 1 && 0.0 <= d.minTenure <= d.avgTenure <= d.maxTenure
  {
    var ts := CellTenures(emps, y, g);
    CellTenuresPositive(emps, y, g);
    MeanBetweenMinAndMax(ts);
    Round2Monotone(0.0, Min(ts));
    Round2Monotone(Min(ts), Mean(ts));
    Round2Monotone(Mean(ts), Max(ts));
    assert Round2(0.0) == 0.0;
  }

  /** A point on the axes whose cell has an average, and carries it. */
  predicate PointOf(c: Cell, years: seq<int>, grades: seq<string>, avg: (int, string) -> Option<real>) {
    c.yearIndex < |years| && c.gradeIndex < |grades| && avg(years[c.yearIndex], grades[c.gradeIndex]) == Some(c.avgTenure)
  }

  predicate AllPoints(c: seq<Cell>, years: seq<int>, grades: seq<string>, avg: (int, string) -> Option<real>) {
    forall k :: 0 <= k < |c| ==> PointOf(c[k], years, grades, avg)
  }

  /** Every point has year index `yi` and a grade index below `m`. */
  predicate InRow(c: seq<Cell>, yi: nat, m: nat) {
    forall k :: 0 <= k < |c| ==> c[k].yearIndex == yi && c[k].gradeIndex < m
  }

  predicate YearsBelow(c: seq<Cell>, n: nat) {
    forall k :: 0 <= k < |c| ==> c[k].yearIndex < n
  }

  predicate GradesAscending(c: seq<Cell>) {
    forall i, j :: 0 <= i < j < |c| ==> c[i].gradeIndex < c[j].gradeIndex
  }

  /** Point `a` comes before point `b`: an earlier year, or the same year and an
      earlier grade. */
  predicate CellBefore(a: Cell, b: Cell) {
    a.yearIndex < b.yearIndex || (a.yearIndex == b.yearIndex && a.gradeIndex < b.gradeIndex)
  }

  predicate YearMajor(c: seq<Cell>) {
    forall i, j :: 0 <= i < j < |c| ==> CellBefore(c[i], c[j])
  }

  /** Some point has indices (a, b). */
  predicate HasPoint(c: seq<Cell>, a: nat, b: nat) {
    exists k :: 0 <= k < |c| && c[k].yearIndex == a && c[k].gradeIndex == b
  }

  lemma {:induction false} RowSound(yi: nat, years: seq<int>, grades: seq<string>, avg: (int, string) -> Option<real>, m: nat)
    requires yi < |years| && m <= |grades|
    ensures AllPoints(RowCells(yi, years, grades, avg, m), years, grades, avg)
    ensures InRow(RowCells(yi, years, grades, avg, m), yi, m)
  {
    if m > 0 {
      RowSound(yi, years, grades, avg, m - 1);
      var c0 := RowCells(yi, years, grades, avg, m - 1);
      var c := RowCells(yi, years, grades, avg, m);
      forall k | 0 <= k < |c| ensures PointOf(c[k], years, grades, avg) && c[k].yearIndex == yi && c[k].gradeIndex < m {
        if k < |c0| {
          assert c[k] == c0[k];
          assert PointOf(c0[k], years, grades, avg);
        }
      }
    }
  }

  lemma {:induction false} RowInRow(yi: nat, years: seq<int>, grades: seq<string>, avg: (int, string) -> Option<real>, m: nat)
    requires yi < |years| && m <= |grades|
    ensures InRow(RowCells(yi, years, grades, avg, m), yi, m)
  {
    if m > 0 {
      RowInRow(yi, years, grades, avg, m - 1);
      var c0 := RowCells(yi, years, grades, avg, m - 1);
      var c := RowCells(yi, years, grades, avg, m);
      forall k | 0 <= k < |c| ensures c[k].yearIndex == yi && c[k].gradeIndex < m {
        if k < |c0| {
          assert c[k] == c0[k];
        }
      }
    }
  }

  lemma {:induction false} RowOrdered(yi: nat, years: seq<int>, grades: seq<string>, avg: (int, string) -> Option<real>, m: nat)
    requires yi < |years| && m <= |grades|
    ensures GradesAscending(RowCells(yi, years, grades, avg, m))
  {
    if m > 0 {
      RowOrdered(yi, years, grades, avg, m - 1);
      RowInRow(yi, years, grades, avg, m - 1);
      var c0 := RowCells(yi, years, grades, avg, m - 1);
      var c := RowCells(yi, years, grades, avg, m);
      forall i, j | 0 <= i < j < |c| ensures c[i].gradeIndex < c[j].gradeIndex {
        assert c[i] == c0[i];
        if j < |c0| {
          assert c[j] == c0[j];
        }
      }
    }
  }

  lemma {:induction false} RowComplete(yi: nat, years: seq<int>, grades: seq<string>, avg: (int, string) -> Option<real>, m: nat, b: nat)
    requires yi < |years| && b < m <= |grades| && avg(years[yi], grades[b]).Some?
    ensures HasPoint(RowCells(yi, years, grades, avg, m), yi, b)
  {
    var c := RowCells(yi, years, grades, avg, m);
    var c0 := RowCells(yi, years, grades, avg, m - 1);
    if b < m - 1 {
      RowComplete(yi, years, grades, avg, m - 1, b);
      var k :| 0 <= k < |c0| && c0[k].yearIndex == yi && c0[k].gradeIndex == b;
      assert c[k] == c0[k];
    } else {
      assert c[|c| - 1] == Cell(yi, b, avg(years[yi], grades[b]).value);
    }
  }

  /** Every point of the first `n` years lies on the axes and carries the average of
      its cell. */
  lemma {:induction false} CellsSound(years: seq<int>, grades: seq<string>, avg: (int, string) -> Option<real>, n: nat)
    requires n <= |years|
    ensures AllPoints(CellsUpTo(years, grades, avg, n), years, grades, avg)
    ensures YearsBelow(CellsUpTo(years, grades, avg, n), n)
  {
    if n > 0 {
      CellsSound(years, grades, avg, n - 1);
      RowSound(n - 1, years, grades, avg, |grades|);
      var c0 := CellsUpTo(years, grades, avg, n - 1);
      var row := RowCells(n - 1, years, grades, avg, |grades|);
      var c := CellsUpTo(years, grades, avg, n);
      forall k | 0 <= k < |c| ensures PointOf(c[k], years, grades, avg) && c[k].yearIndex < n {
        if k < |c0| {
          assert c[k] == c0[k];
          assert PointOf(c0[k], years, grades, avg);
        } else {
          assert c[k] == row[k - |c0|];
          assert PointOf(row[k - |c0|], years, grades, avg);
        }
      }
    }
  }

  lemma {:induction false} CellsYearsBelow(years: seq<int>, grades: seq<string>, avg: (int, string) -> Option<real>, n: nat)
    requires n <= |years|
    ensures YearsBelow(CellsUpTo(years, grades, avg, n), n)
  {
    if n > 0 {
      CellsYearsBelow(years, grades, avg, n - 1);
      RowInRow(n - 1, years, grades, avg, |grades|);
      var c0 := CellsUpTo(years, grades, avg, n - 1);
      var row := RowCells(n - 1, years, grades, avg, |grades|);
      var c := CellsUpTo(years, grades, avg, n);
      forall k | 0 <= k < |c| ensures c[k].yearIndex < n {
        if k < |c0| {
          assert c[k] == c0[k];
        } else {
          assert c[k] == row[k - |c0|];
        }
      }
    }
  }

  /** Year-major points of earlier years followed by one later year's points in grade
      order are year-major. */
  lemma YearMajorConcat(c0: seq<Cell>, row: seq<Cell>, yi: nat, m: nat)
    requires YearMajor(c0) && YearsBelow(c0, yi)
    requires InRow(row, yi, m) && GradesAscending(row)
    ensures YearMajor(c0 + row)
  {
    var c := c0 + row;
    forall i, j | 0 <= i < j < |c| ensures CellBefore(c[i], c[j]) {
      if j < |c0| {
        assert c[i] == c0[i] && c[j] == c0[j];
      } else if i < |c0| {
        assert c[i] == c0[i] && c[j] == row[j - |c0|];
      } else {
        assert c[i] == row[i - |c0|] && c[j] == row[j - |c0|];
      }
    }
  }

  /** The points come year by year and, within a year, grade by grade. */
  lemma {:induction false} CellsOrdered(years: seq<int>, grades: seq<string>, avg: (int, string) -> Option<real>, n: nat)
    requires n <= |years|
    ensures YearMajor(CellsUpTo(years, grades, avg, n))
  {
    if n > 0 {
      CellsOrdered(years, grades, avg, n - 1);
      CellsYearsBelow(years, grades, avg, n - 1);
      RowInRow(n - 1, years, grades, avg, |grades|);
      RowOrdered(n - 1, years, grades, avg, |grades|);
      YearMajorConcat(CellsUpTo(years, grades, avg, n - 1), RowCells(n - 1, years, grades, avg, |grades|), n - 1, |grades|);
    }
  }

  /** Every (year, grade) among the first `n` years whose cell has an average has a point. */
  lemma {:induction false} CellsComplete(years: seq<int>, grades: seq<string>, avg: (int, string) -> Option<real>, n: nat, a: nat, b: nat)
    requires a < n <= |years| && b < |grades| && avg(years[a], grades[b]).Some?
    ensures HasPoint(CellsUpTo(years, grades, avg, n), a, b)
  {
    var c := CellsUpTo(years, grades, avg, n);
    var c0 := CellsUpTo(years, grades, avg, n - 1);
    var row := RowCells(n - 1, years, grades, avg, |grades|);
    if a < n - 1 {
      CellsComplete(years, grades, avg, n - 1, a, b);
      var k :| 0 <= k < |c0| && c0[k].yearIndex == a && c0[k].gradeIndex == b;
      assert c[k] == c0[k];
    } else {
      RowComplete(n - 1, years, grades, avg, |grades|, b);
      var k :| 0 <= k < |row| && row[k].yearIndex == a && row[k].gradeIndex == b;
      assert c[|c0| + k] == row[k];
    }
  }

  /** The points: each lies on the axes and carries the average of its cell; they come
      in year-major order; and every cell on the axes with an average has one. */
  lemma CellsFacts(years: seq<int>, grades: seq<string>, avg: (int, string) -> Option<real>)
    ensures var c := CellsOf(years, grades, avg);
      && (forall k :: 0 <= k < |c| ==>
            c[k].yearIndex < |years| && c[k].gradeIndex < |grades| &&
            avg(years[c[k].yearIndex], grades[c[k].gradeIndex]) == Some(c[k].avgTenure))
      && (forall i, j :: 0 <= i < j < |c| ==> CellBefore(c[i], c[j]))
      && (forall a: nat, b: nat :: a < |years| && b < |grades| && avg(years[a], grades[b]).Some? ==>
            exists k :: 0 <= k < |c| && c[k].yearIndex == a && c[k].gradeIndex == b)
  {
    CellsSound(years, grades, avg, |years|);
    CellsOrdered(years, grades, avg, |years|);
    forall a: nat, b: nat | a < |years| && b < |grades| && avg(years[a], grades[b]).Some?
      ensures HasPoint(CellsOf(years, grades, avg), a, b)
    {
      CellsComplete(years, grades, avg, |years|, a, b);
    }
  }

  /** A point witnesses a contributing row whose grade holds an id. */
  lemma PointHasGradedRow(emps: seq<Employee>)
    requires CellsOf(SortedYears(emps), SortedGrades(emps), Averages(emps)) != []
    ensures exists e :: e in emps && Contributes(e) && GradeIdOf(emps, e.gradeName.value).Some?
  {
    var ys, gs, avg := SortedYears(emps), SortedGrades(emps), Averages(emps);
    var c := CellsOf(ys, gs, avg);
    CellsSound(ys, gs, avg, |ys|);
    assert PointOf(c[0], ys, gs, avg);
    var y, g := ys[c[0].yearIndex], gs[c[0].gradeIndex];
    assert avg(y, g) == CellAverage(emps, y, g);
    CellTenuresNonEmpty(emps, y, g);
    var e :| e in emps && InCell(e, y, g);
    GradeAxisMembers(emps);
    assert g in gs;
    var w :| w in emps && HasGrade(w) && w.gradeName == Some(g);
    GradeIdsHas(emps, g, w);
    assert GradeIdOf(emps, e.gradeName.value).Some?;
  }

  /** A contributing row whose grade holds an id gives a point. */
  lemma GradedRowHasPoint(emps: seq<Employee>, e: Employee)
    requires e in emps && Contributes(e) && GradeIdOf(emps, e.gradeName.value).Some?
    ensures CellsOf(SortedYears(emps), SortedGrades(emps), Averages(emps)) != []
  {
    var ys, gs, avg := SortedYears(emps), SortedGrades(emps), Averages(emps);
    var y, g := e.resignYear.value, e.gradeName.value;
    YearAxis(emps);
    assert y in ys;
    GradeAxisMembers(emps);
    GradeIdIsLargest(emps, g);
    assert g in gs;
    var a :| 0 <= a < |ys| && ys[a] == y;
    var b :| 0 <= b < |gs| && gs[b] == g;
    assert InCell(e, y, g);
    CellTenuresNonEmpty(emps, y, g);
    assert avg(ys[a], gs[b]) == CellAverage(emps, y, g);
    CellsComplete(ys, gs, avg, |ys|, a, b);
  }

  /** The "no data" panel: the heatmap has no point exactly when no row that enters a
      cell has a grade that carries a numeric GRADE_ID on some row. */
  lemma NoDataPanel(emps: seq<Employee>)
    ensures CellsOf(SortedYears(emps), SortedGrades(emps), Averages(emps)) == [] <==>
      forall e :: e in emps && Contributes(e) ==> GradeIdOf(emps, e.gradeName.value).None?
  {
    if CellsOf(SortedYears(emps), SortedGrades(emps), Averages(emps)) != [] {
      PointHasGradedRow(emps);
    }
    forall e | e in emps && Contributes(e) && GradeIdOf(emps, e.gradeName.value).Some?
      ensures CellsOf(SortedYears(emps), SortedGrades(emps), Averages(emps)) != []
    {
      GradedRowHasPoint(emps, e);
    }
  }
}
