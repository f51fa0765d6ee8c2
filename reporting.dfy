/**
 * vaultprivacy/reporting.py: what the CSV and the Markdown reports are made of.
 * The rows of the CSV file, the statistics, the grade distribution, the list
 * of poorly rated services and the complete list are modelled; the text that
 * renders them is not.
 */
module Reporting {
  import opened Wrappers
  import opened Strings
  import opened Distinct
  import opened Sorting
  import ApiClient

  /**
   * One analysed service as the reports receive it: a dict whose keys
   * `domain`, `grade`, `service_id` and `name` may each be absent (None).
   */
  datatype Entry = Entry(
    domain: Option<string>,
    grade: Option<string>,
    serviceId: Option<ApiClient.IdValue>,
    name: Option<string>)

  // ---------------------------------------------------------------------------
  // The CSV report

  /** A row under the header `service,domain,tosdr_grade,service_id,status`. */
  datatype CsvRow = CsvRow(service: string, domain: string, grade: string, serviceId: string, status: string)

  /** The `service_id` cell: the decimal text of a number, the text of a string, empty for None or absent. */
  function IdCell(id: Option<ApiClient.IdValue>): (cell: string)
    ensures id.Some? && id.value.IntId? && |NatText(AbsNat(id.value.n))| <= MaxStrDigits ==>
      ParseInt(cell) == Some(id.value.n)
    ensures id.Some? && id.value.TextId? ==> cell == id.value.t
    ensures id.None? || id == Some(ApiClient.NullId) ==> cell == ""
  {
    match id
    case None => ""
    case Some(v) =>
      match v
      case NullId => ""
      case IntId(n) =>
        if |NatText(AbsNat(n))| <= MaxStrDigits then IntTextRoundTrip(n); IntText(n) else IntText(n)
      case TextId(t) => t
  }

  /** A record is counted as found unless its grade is the string "Unknown". */
  predicate IsFound(e: Entry) {
    e.grade != Some("Unknown")
  }

  /** Lines 40-46: the row written for one record. */
  function Row(e: Entry): (row: CsvRow)
    ensures row.status == "Found" <==> IsFound(e)
    ensures row.status == "Found" || row.status == "Unknown"
    ensures e.grade.Some? ==> row.grade == e.grade.value && (row.status == "Found" <==> row.grade != "Unknown")
    ensures e.name.Some? ==> row.service == e.name.value
    ensures e.name.None? ==> row.service == row.domain
    ensures row.domain == e.domain.GetOr("") && row.serviceId == IdCell(e.serviceId)
  {
    CsvRow(
      e.name.GetOr(e.domain.GetOr("")),
      e.domain.GetOr(""),
      e.grade.GetOr("Unknown"),
      IdCell(e.serviceId),
      if IsFound(e) then "Found" else "Unknown")
  }

  /** A record without a grade is written with grade "Unknown" and yet with status "Found". */
  lemma RowWithoutGrade(e: Entry)
    requires e.grade.None?
    ensures Row(e).grade == "Unknown" && Row(e).status == "Found"
  {
  }

  /** Lines 38-46: the rows of the CSV file after its header, one per record, in order. */
  method CsvRows(entries: seq<Entry>) returns (rows: seq<CsvRow>)
    ensures |rows| == |entries|
    ensures forall i :: 0 <= i < |entries| ==> rows[i] == Row(entries[i])
  {
    rows := [];
    for i := 0 to |entries|
      invariant |rows| == i
      invariant forall k :: 0 <= k < i ==> rows[k] == Row(entries[k])
    {
      rows := rows + [Row(entries[i])];
    }
  }

  // ---------------------------------------------------------------------------
  // Statistics (lines 72-80)

  /** `sum(1 for d in domains_data if d.get('grade') != 'Unknown')`. */
  function FoundCount(es: seq<Entry>): (n: nat)
    ensures n <= |es|
  {
    if es == [] then 0 else (if IsFound(es[0]) then 1 else 0) + FoundCount(es[1..])
  }

  /** The number of records whose grade is `g`. */
  function CountGraded(es: seq<Entry>, g: string): nat
  {
    if es == [] then 0 else (if es[0].grade == Some(g) then 1 else 0) + CountGraded(es[1..], g)
  }

  /** `unknown_services = total_services - found_services` counts the records graded "Unknown". */
  lemma {:induction false} FoundPlusUnknown(es: seq<Entry>)
    ensures FoundCount(es) + CountGraded(es, "Unknown") == |es|
  {
    if es != [] {
      FoundPlusUnknown(es[1..]);
    }
  }

  /** The key a record is tallied under: its grade, "Unknown" when absent. */
  function GradeKey(e: Entry): string {
    e.grade.GetOr("Unknown")
  }

  function GradeKeys(es: seq<Entry>): (ks: seq<string>)
    ensures |ks| == |es|
    ensures forall i :: 0 <= i < |es| ==> ks[i] == GradeKey(es[i])
  {
    if es == [] then [] else GradeKeys(es[..|es| - 1]) + [GradeKey(es[|es| - 1])]
  }

  /** The dict `grade_counts` after counting `gs`: each key once, with its number of occurrences. */
  function Tally(gs: seq<string>): (counts: map<string, nat>)
    ensures forall g :: g in counts <==> g in gs
    decreases |gs|
  {
    if gs == [] then map[]
    else
      var counts := Tally(gs[..|gs| - 1]);
      var g := gs[|gs| - 1];
      counts[g := (if g in counts then counts[g] else 0) + 1]
  }

  /** Each key of `grade_counts` holds the number of times it occurs. */
  lemma {:induction false} TallyCounts(gs: seq<string>)
    ensures forall g :: g in Tally(gs) ==> Tally(gs)[g] == multiset(gs)[g]
    decreases |gs|
  {
    if gs != [] {
      var init, g := gs[..|gs| - 1], gs[|gs| - 1];
      assert gs == init + [g];
      TallyCounts(init);
    }
  }

  lemma TallySnoc(gs: seq<string>, g: string)
    ensures Tally(gs + [g]) == Tally(gs)[g := (if g in Tally(gs) then Tally(gs)[g] else 0) + 1]
  {
    assert (gs + [g])[..|gs|] == gs;
  }

  /** Counting one more key: a new key is appended to the key order, and its count goes up by one. */
  lemma CountStep(ks: seq<string>, g: string, order: seq<string>, counts: map<string, nat>)
    requires order == FirstSeen(ks) && counts == Tally(ks)
    ensures FirstSeen(ks + [g]) == if g !in counts then order + [g] else order
    ensures Tally(ks + [g]) == counts[g := (if g in counts then counts[g] else 0) + 1]
  {
    TallySnoc(ks, g);
    FirstSeenSnoc(ks, g);
  }

  /**
   * Lines 77-80 (and main.py:143-146): `grade_counts` filled one record at a
   * time. `order` is the order in which its keys were inserted.
   */
  method CountGrades(es: seq<Entry>) returns (order: seq<string>, counts: map<string, nat>)
    ensures order == FirstSeen(GradeKeys(es))
    ensures counts == Tally(GradeKeys(es))
  {
    ghost var keys := GradeKeys(es);
    order, counts := [], map[];
    for i := 0 to |es|
      invariant order == FirstSeen(keys[..i])
      invariant counts == Tally(keys[..i])
    {
      var grade := GradeKey(es[i]);
      assert keys[..i + 1] == keys[..i] + [grade];
      CountStep(keys[..i], grade, order, counts);
      if grade !in counts {
        order := order + [grade];
      }
      counts := counts[grade := (if grade in counts then counts[grade] else 0) + 1];
    }
    assert keys[..|es|] == keys;
  }

  /** An item of `grade_counts.items()`. */
  datatype GradeCount = GradeCount(grade: string, count: nat)

  /** The items of `counts` for the keys of `order` that it holds, in the order of `order`. */
  function Items(order: seq<string>, counts: map<string, nat>): (items: seq<GradeCount>)
    ensures |items| <= |order|
    ensures forall i :: 0 <= i < |items| ==>
      items[i].grade in order && items[i].grade in counts && items[i].count == counts[items[i].grade]
  {
    if order == [] then []
    else (if order[0] in counts then [GradeCount(order[0], counts[order[0]])] else []) + Items(order[1..], counts)
  }

  /** Every listed key that `counts` holds has its item. */
  lemma {:induction false} ItemsCover(order: seq<string>, counts: map<string, nat>, g: string)
    requires g in order && g in counts
    ensures GradeCount(g, counts[g]) in Items(order, counts)
    decreases |order|
  {
    if order[0] != g {
      ItemsCover(order[1..], counts, g);
    }
  }

  /** The sum of the counts. */
  function Total(items: seq<GradeCount>): nat {
    if items == [] then 0 else items[0].count + Total(items[1..])
  }

  lemma TotalCons(x: GradeCount, items: seq<GradeCount>)
    ensures Total([x] + items) == x.count + Total(items)
  {
    assert ([x] + items)[1..] == items;
  }

  /** The number of elements of `gs` that occur in `order`. */
  function CountIn(gs: seq<string>, order: seq<string>): nat {
    if gs == [] then 0 else CountIn(gs[..|gs| - 1], order) + (if gs[|gs| - 1] in order then 1 else 0)
  }

  lemma {:induction false} CountInAll(gs: seq<string>, order: seq<string>)
    requires forall i :: 0 <= i < |gs| ==> gs[i] in order
    ensures CountIn(gs, order) == |gs|
    decreases |gs|
  {
    if gs != [] {
      CountInAll(gs[..|gs| - 1], order);
    }
  }

  lemma {:induction false} ItemsEmpty(order: seq<string>)
    ensures Items(order, map[]) == []
    decreases |order|
  {
    if order != [] {
      ItemsEmpty(order[1..]);
    }
  }

  /** Counting one more `x` adds one to the total exactly when `x` is one of the listed keys. */
  lemma {:induction false} ItemsBump(order: seq<string>, counts: map<string, nat>, x: string)
    requires NoDuplicates(order)
    ensures Total(Items(order, counts[x := (if x in counts then counts[x] else 0) + 1]))
         == Total(Items(order, counts)) + (if x in order then 1 else 0)
    decreases |order|
  {
    if order != [] {
      var bumped := counts[x := (if x in counts then counts[x] else 0) + 1];
      var rest := order[1..];
      NoDuplicatesTail(order);
      ItemsBump(rest, counts, x);
      var g := order[0];
      if g in counts {
        TotalCons(GradeCount(g, counts[g]), Items(rest, counts));
      } else {
        assert Items(order, counts) == Items(rest, counts);
      }
      if g in bumped {
        TotalCons(GradeCount(g, bumped[g]), Items(rest, bumped));
      } else {
        assert Items(order, bumped) == Items(rest, bumped);
      }
    }
  }

  /** The counts over the keys listed in `order` add up to the records whose key is listed there. */
  lemma {:induction false} ItemsTotal(order: seq<string>, gs: seq<string>)
    requires NoDuplicates(order)
    ensures Total(Items(order, Tally(gs))) == CountIn(gs, order)
    decreases |gs|
  {
    if gs == [] {
      ItemsEmpty(order);
    } else {
      var init, last := gs[..|gs| - 1], gs[|gs| - 1];
      var before := Tally(init);
      assert Tally(gs) == before[last := (if last in before then before[last] else 0) + 1];
      ItemsTotal(order, init);
      ItemsBump(order, before, last);
    }
  }

  /** When the grade of every entry is in `order`, the items of `order` count every entry once. */
  lemma ItemsCountAll(order: seq<string>, es: seq<Entry>)
    requires NoDuplicates(order) && forall i :: 0 <= i < |es| ==> GradeKey(es[i]) in order
    ensures Total(Items(order, Tally(GradeKeys(es)))) == |es|
  {
    var gs := GradeKeys(es);
    ItemsTotal(order, gs);
    CountInAll(gs, order);
  }

  /** `grade_counts.items()` in insertion order. */
  function GradeCounts(es: seq<Entry>): seq<GradeCount> {
    Items(FirstSeen(GradeKeys(es)), Tally(GradeKeys(es)))
  }

  /**
   * `grade_counts` has one item per distinct grade key, holding the number of
   * records with that key, and the counts add up to the number of records.
   */
  lemma GradeCountsCorrect(es: seq<Entry>)
    ensures Total(GradeCounts(es)) == |es|
    ensures forall i :: 0 <= i < |GradeCounts(es)| ==>
      GradeCounts(es)[i].count == multiset(GradeKeys(es))[GradeCounts(es)[i].grade]
    ensures forall e :: e in es ==> exists i :: 0 <= i < |GradeCounts(es)| && GradeCounts(es)[i].grade == GradeKey(e)
  {
    GradeCountsTotal(es);
    GradeCountsTally(es);
    forall e | e in es
      ensures exists i :: 0 <= i < |GradeCounts(es)| && GradeCounts(es)[i].grade == GradeKey(e)
    {
      GradeCountsCover(es, e);
    }
  }

  lemma GradeCountsTotal(es: seq<Entry>)
    ensures Total(GradeCounts(es)) == |es|
  {
    var ks := GradeKeys(es);
    ItemsTotal(FirstSeen(ks), ks);
    CountInAll(ks, FirstSeen(ks));
  }

  lemma GradeCountsTally(es: seq<Entry>)
    ensures forall i :: 0 <= i < |GradeCounts(es)| ==>
      GradeCounts(es)[i].count == multiset(GradeKeys(es))[GradeCounts(es)[i].grade]
  {
    TallyCounts(GradeKeys(es));
  }

  lemma GradeCountsCover(es: seq<Entry>, e: Entry)
    requires e in es
    ensures exists i :: 0 <= i < |GradeCounts(es)| && GradeCounts(es)[i].grade == GradeKey(e)
  {
    var ks, g := GradeKeys(es), GradeKey(e);
    var k :| 0 <= k < |es| && es[k] == e;
    assert ks[k] == g;
    ItemsCover(FirstSeen(ks), Tally(ks), g);
    var items := GradeCounts(es);
    var i :| 0 <= i < |items| && items[i] == GradeCount(g, Tally(ks)[g]);
    assert items[i].grade == g;
  }

  // ---------------------------------------------------------------------------
  // Orderings

  /** `grade_order.index(g)` for the grades of `grade_order`, 999 for any other. */
  function Rank(g: string): (r: nat)
    ensures g in ApiClient.Grades ==> r < |ApiClient.Grades| && ApiClient.Grades[r] == g
    ensures g !in ApiClient.Grades ==> r == 999
  {
    if g == "A" then 0
    else if g == "B" then 1
    else if g == "C" then 2
    else if g == "D" then 3
    else if g == "E" then 4
    else if g == "Unknown" then 5
    else 999
  }

  /** The sort key of line 84. */
  function ItemKey(item: GradeCount): SortKey {
    SortKey(Rank(item.grade), "")
  }

  /** Line 84: `sorted_grades`. */
  function SortedGrades(es: seq<Entry>): seq<GradeCount> {
    SortBy(GradeCounts(es), ItemKey)
  }

  /**
   * `sorted_grades` holds the items of `grade_counts`, ordered A, B, C, D, E,
   * Unknown with any other grade last; grades of equal rank keep their
   * insertion order.
   */
  lemma SortedGradesOrder(es: seq<Entry>)
    ensures multiset(SortedGrades(es)) == multiset(GradeCounts(es))
    ensures forall i, j :: 0 <= i < j < |SortedGrades(es)| ==>
      Rank(SortedGrades(es)[i].grade) <= Rank(SortedGrades(es)[j].grade)
    ensures forall k :: WithKey(SortedGrades(es), ItemKey, k) == WithKey(GradeCounts(es), ItemKey, k)
  {
    SortByCorrect(GradeCounts(es), ItemKey);
    var s := SortedGrades(es);
    forall i, j | 0 <= i < j < |s| ensures Rank(s[i].grade) <= Rank(s[j].grade) {
      assert !KeyLess(ItemKey(s[j]), ItemKey(s[i]));
    }
  }

  /** A record graded D or E, the test of line 149 (and of main.py:160). */
  predicate IsRisky(e: Entry) {
    e.grade == Some("D") || e.grade == Some("E")
  }

  /** Line 149: the records graded D or E, in input order. */
  function Risky(es: seq<Entry>): (r: seq<Entry>)
    ensures forall e :: e in r <==> e in es && IsRisky(e)
    ensures |r| <= |es|
  {
    if es == [] then [] else (if IsRisky(es[0]) then [es[0]] else []) + Risky(es[1..])
  }

  /** Every record graded D or E is kept as often as it occurs, and no other record is kept. */
  lemma {:induction false} RiskyCounts(es: seq<Entry>)
    ensures forall e :: multiset(Risky(es))[e] == if IsRisky(e) then multiset(es)[e] else 0
  {
    if es != [] {
      RiskyCounts(es[1..]);
      assert es == [es[0]] + es[1..];
    }
  }

  /** The records whose grade is `g`, in input order. */
  function OfGrade(es: seq<Entry>, g: string): (r: seq<Entry>)
    ensures forall e :: e in r <==> e in es && e.grade == Some(g)
  {
    if es == [] then [] else (if es[0].grade == Some(g) then [es[0]] else []) + OfGrade(es[1..], g)
  }

  /** Every record of grade `g` is kept as often as it occurs, and no other record is kept. */
  lemma {:induction false} OfGradeCounts(es: seq<Entry>, g: string)
    ensures forall e :: multiset(OfGrade(es, g))[e] == if e.grade == Some(g) then multiset(es)[e] else 0
  {
    if es != [] {
      OfGradeCounts(es[1..], g);
      assert es == [es[0]] + es[1..];
    }
  }

  /** The sort key of line 156: the position of the grade in `['E', 'D']`, 999 for any other. */
  function RiskyKey(e: Entry): SortKey {
    SortKey(if e.grade == Some("E") then 0 else if e.grade == Some("D") then 1 else 999, "")
  }

  /** Line 156: `risky_services` after its sort. */
  function SortedRisky(es: seq<Entry>): seq<Entry> {
    SortBy(Risky(es), RiskyKey)
  }

  lemma {:induction false} RiskyWithKey(es: seq<Entry>, g: string, rank: nat)
    requires (g == "E" && rank == 0) || (g == "D" && rank == 1)
    ensures WithKey(Risky(es), RiskyKey, SortKey(rank, "")) == OfGrade(es, g)
    decreases |es|
  {
    if es != [] {
      var head := if IsRisky(es[0]) then [es[0]] else [];
      RiskyWithKey(es[1..], g, rank);
      WithKeyAppend(head, Risky(es[1..]), RiskyKey, SortKey(rank, ""));
      if IsRisky(es[0]) {
        assert head[1..] == [];
      }
    }
  }

  /**
   * The sorted list of poorly rated services is every record graded E, in
   * input order, followed by every record graded D, in input order.
   */
  lemma SortedRiskyOrder(es: seq<Entry>)
    ensures SortedRisky(es) == OfGrade(es, "E") + OfGrade(es, "D")
  {
    var risky := Risky(es);
    var s := SortedRisky(es);
    SortByCorrect(risky, RiskyKey);
    forall i | 0 <= i < |s| ensures RiskyKey(s[i]) == SortKey(0, "") || RiskyKey(s[i]) == SortKey(1, "") {
      assert s[i] in multiset(s);
      assert s[i] in risky;
    }
    SortedTwoKeys(s, RiskyKey, SortKey(0, ""), SortKey(1, ""));
    RiskyWithKey(es, "E", 0);
    RiskyWithKey(es, "D", 1);
  }

  /** A record whose grade (or "Unknown", when absent) is one of the six of `grade_order`. */
  predicate Ranked(e: Entry) {
    GradeKey(e) in ApiClient.Grades
  }

  /** The grade of the first record that `.index` cannot place, if any. */
  function FirstUnranked(es: seq<Entry>): (r: Option<string>)
    ensures r.None? <==> forall i :: 0 <= i < |es| ==> Ranked(es[i])
    ensures r.Some? ==> exists i :: 0 <= i < |es| && !Ranked(es[i]) && GradeKey(es[i]) == r.value
                                    && forall k :: 0 <= k < i ==> Ranked(es[k])
  {
    if es == [] then None
    else if !Ranked(es[0]) then Some(GradeKey(es[0]))
    else
      var r := FirstUnranked(es[1..]);
      assert forall k :: 0 < k < |es| ==> es[k] == es[1..][k - 1];
      r
  }

  /** The sort key of line 169: the grade's position, then the name ("" when absent). */
  function CompleteKey(e: Entry): SortKey {
    SortKey(Rank(GradeKey(e)), e.name.GetOr(""))
  }

  /** The exceptions the Markdown report raises. */
  datatype ReportError =
    | UnrankedGrade(grade: string) // `list.index` raises ValueError (line 169)
    | NoEntries                    // division by `total_services == 0` (lines 118-119)

  /** Line 169: `sorted_services`. */
  function CompleteList(es: seq<Entry>): Result<seq<Entry>, ReportError> {
    match FirstUnranked(es)
    case Some(g) => Err(UnrankedGrade(g))
    case None => Ok(SortBy(es, CompleteKey))
  }

  /**
   * The complete list fails exactly when some grade is not one of the six;
   * otherwise it is a permutation of the records, ordered by grade and then
   * by name, and records with equal grade and name keep their input order.
   */
  lemma CompleteListCorrect(es: seq<Entry>)
    ensures CompleteList(es).Ok? <==> forall i :: 0 <= i < |es| ==> Ranked(es[i])
    ensures CompleteList(es).Ok? ==>
      var l := CompleteList(es).value;
      && multiset(l) == multiset(es)
      && (forall i, j :: 0 <= i < j < |l| ==> !KeyLess(CompleteKey(l[j]), CompleteKey(l[i])))
      && forall k :: WithKey(l, CompleteKey, k) == WithKey(es, CompleteKey, k)
  {
    SortByCorrect(es, CompleteKey);
  }

  /** What the Markdown report shows: statistics, distribution, risky list and complete list. */
  datatype Report = Report(
    total: nat,
    found: nat,
    unknown: nat,
    distribution: seq<GradeCount>,
    risky: seq<Entry>,
    complete: seq<Entry>)

  /** `generate_markdown_report`: the report's contents, or the exception that escapes. */
  function MarkdownReport(es: seq<Entry>): (r: Result<Report, ReportError>)
    ensures r.Ok? ==> r.value.found + r.value.unknown == r.value.total == |es|
    ensures r.Ok? ==> r.value.unknown == CountGraded(es, "Unknown")
    ensures es == [] ==> r == Err(NoEntries)
  {
    FoundPlusUnknown(es);
    if |es| == 0 then Err(NoEntries)
    else match CompleteList(es)
      case Err(e) => Err(e)
      case Ok(complete) =>
        Ok(Report(|es|, FoundCount(es), |es| - FoundCount(es), SortedGrades(es), SortedRisky(es), complete))
  }

  /** The report fails exactly for no records or a grade outside the six. */
  lemma MarkdownReportError(es: seq<Entry>)
    ensures MarkdownReport(es).Err? <==> es == [] || exists i :: 0 <= i < |es| && !Ranked(es[i])
  {
    CompleteListCorrect(es);
  }
}
