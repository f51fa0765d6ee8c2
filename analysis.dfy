/**
 * vaultprivacy/main.py: the four steps of an analysis. Extract the domains
 * of the export, normalise them again with the Public Suffix List normaliser,
 * look each one up, and assemble the reports and the closing summary. The
 * normaliser and the network are parameters.
 */
module Analysis {
  import opened Wrappers
  import opened Distinct
  import opened Parser
  import opened ApiClient
  import opened Reporting

  // ---------------------------------------------------------------------------
  // Step 2: normalisation (lines 91-95)

  /** `normalize(domain)` for each extracted domain, in order. */
  function Normalized(domains: seq<string>, normalize: string -> string): (r: seq<string>)
    ensures |r| == |domains|
    ensures forall i :: 0 <= i < |domains| ==> r[i] == normalize(domains[i])
  {
    if domains == [] then []
    else Normalized(domains[..|domains| - 1], normalize) + [normalize(domains[|domains| - 1])]
  }

  /** Lines 91-95: keep each non-empty normalised domain the first time it appears. */
  method NormalizeAll(domains: seq<string>, normalize: string -> string) returns (normalized: seq<string>)
    ensures normalized == DistinctNonEmpty(Normalized(domains, normalize))
  {
    normalized := [];
    for i := 0 to |domains|
      invariant normalized == DistinctNonEmpty(Normalized(domains[..i], normalize))
    {
      var n := normalize(domains[i]);
      assert domains[..i + 1][..i] == domains[..i];
      DistinctNonEmptySnoc(Normalized(domains[..i], normalize), n);
      if n != "" && n !in normalized {
        normalized := normalized + [n];
      }
    }
    assert domains[..|domains|] == domains;
  }

  /**
   * The normalised domains are distinct and non-empty, they are exactly the
   * non-empty values of `normalize` over the extracted domains, and they are
   * listed in the order in which each was first produced.
   */
  lemma NormalizedDomainsCorrect(domains: seq<string>, normalize: string -> string)
    ensures var r := DistinctNonEmpty(Normalized(domains, normalize));
      && NoDuplicates(r) && "" !in r
      && (forall x :: x in r <==> x != "" && exists i :: 0 <= i < |domains| && normalize(domains[i]) == x)
      && forall i, j :: 0 <= i < j < |r| ==>
           FirstIndex(Normalized(domains, normalize), r[i]) < FirstIndex(Normalized(domains, normalize), r[j])
  {
    var ns := Normalized(domains, normalize);
    var r := DistinctNonEmpty(ns);
    forall x ensures x in r <==> x != "" && exists i :: 0 <= i < |domains| && normalize(domains[i]) == x {
      if x in ns {
        var i :| 0 <= i < |ns| && ns[i] == x;
        assert normalize(domains[i]) == x;
      }
    }
    forall i, j | 0 <= i < j < |r| ensures FirstIndex(ns, r[i]) < FirstIndex(ns, r[j]) {
      FirstSeenOrder(ns, i, j);
    }
  }

  /**
   * What `domain_normalizer.normalize` guarantees by its own lines 5-12: a
   * non-empty input gives a non-empty result (either `domain.suffix` or the
   * input lowercased).
   */
  ghost predicate KeepsNonEmpty(normalize: string -> string) {
    forall d :: d != "" ==> normalize(d) != ""
  }

  /** With such a normaliser, a non-empty list of non-empty domains keeps at least one. */
  lemma NormalizedNonEmpty(domains: seq<string>, normalize: string -> string)
    requires KeepsNonEmpty(normalize) && domains != [] && "" !in domains
    ensures DistinctNonEmpty(Normalized(domains, normalize)) != []
  {
    var ns := Normalized(domains, normalize);
    assert domains[0] != "";
    assert ns[0] != "" && ns[0] in ns;
  }

  // ---------------------------------------------------------------------------
  // Step 3: lookups (lines 104-109)

  /** `result['domain'] = domain` on the record `lookup_tosdr(domain)` returned. */
  function EntryOf(rec: Record, domain: string): Entry {
    Entry(Some(domain), Some(rec.grade), Some(rec.serviceId), Some(rec.name))
  }

  /** The domains, in order, that the cache `cache` does not hold. */
  function Uncached(domains: seq<string>, cache: map<string, Record>): (r: seq<string>)
    ensures forall d :: d in r <==> d in domains && d !in cache
  {
    if domains == [] then []
    else
      var last := domains[|domains| - 1];
      Uncached(domains[..|domains| - 1], cache) + (if last in cache then [] else [last])
  }

  /** Every domain the cache lacks is kept as often as it occurs, and no other domain is kept. */
  lemma {:induction false} UncachedCounts(domains: seq<string>, cache: map<string, Record>)
    ensures forall d :: multiset(Uncached(domains, cache))[d] == if d in cache then 0 else multiset(domains)[d]
  {
    if domains != [] {
      var init := domains[..|domains| - 1];
      UncachedCounts(init, cache);
      assert domains == init + [domains[|domains| - 1]];
    }
  }

  /**
   * After `i` lookups: one entry per domain so far, each the cached record of
   * its domain, and the cache holds what it held at the start plus those domains.
   */
  ghost predicate Tracked(domains: seq<string>, i: nat, results: seq<Entry>,
                          cache: map<string, Record>, cache0: map<string, Record>)
    requires i <= |domains|
  {
    && |results| == i
    && (forall k :: 0 <= k < i ==> domains[k] in cache && results[k] == EntryOf(cache[domains[k]], domains[k]))
    && (forall x :: x in cache <==> x in cache0 || x in domains[..i])
  }

  lemma TrackedStep(domains: seq<string>, i: nat, results: seq<Entry>, cache: map<string, Record>,
                    cache': map<string, Record>, cache0: map<string, Record>, rec: Record)
    requires i < |domains| && Tracked(domains, i, results, cache, cache0)
    requires domains[i] in cache' && cache'[domains[i]] == rec
    requires forall x :: x in cache' <==> x in cache || x == domains[i]
    requires forall x :: x in cache ==> cache'[x] == cache[x]
    ensures Tracked(domains, i + 1, results + [EntryOf(rec, domains[i])], cache', cache0)
  {
    assert domains[..i + 1] == domains[..i] + [domains[i]];
  }

  lemma QueriesStep(domains: seq<string>, i: nat, cache: map<string, Record>, cache0: map<string, Record>,
                    queries: seq<string>, queries0: seq<string>)
    requires NoDuplicates(domains) && i < |domains|
    requires domains[i] in cache <==> domains[i] in cache0 || domains[i] in domains[..i]
    requires queries == queries0 + Uncached(domains[..i], cache0)
    ensures queries + (if domains[i] in cache then [] else [domains[i]]) == queries0 + Uncached(domains[..i + 1], cache0)
  {
    var d := domains[i];
    UncachedSnoc(domains, i, cache0);
    assert d !in domains[..i];
    var tail := if d in cache then [] else [d];
    assert tail == (if d in cache0 then [] else [d]);
    assert queries + tail == queries0 + (Uncached(domains[..i], cache0) + tail);
  }

  lemma UncachedSnoc(domains: seq<string>, k: nat, cache: map<string, Record>)
    requires k < |domains|
    ensures Uncached(domains[..k + 1], cache) == Uncached(domains[..k], cache) + (if domains[k] in cache then [] else [domains[k]])
  {
    assert domains[..k + 1][..k] == domains[..k];
  }

  /**
   * Lines 104-109: one lookup per domain, in order, stopping at the first
   * exception. On success, entry `i` is the record the cache now holds for
   * domain `i`, tagged with that domain; with distinct domains, exactly the
   * domains the cache held none for were sent to the network, in order.
   */
  method LookupAll(client: RatingClient, domains: seq<string>, network: string -> Response)
    returns (r: Result<seq<Entry>, LookupError>)
    modifies client
    ensures r.Ok? ==> |r.value| == |domains|
    ensures r.Ok? ==> forall i :: 0 <= i < |domains| ==>
      domains[i] in client.Cache() && r.value[i] == EntryOf(client.Cache()[domains[i]], domains[i])
    ensures r.Ok? && NoDuplicates(domains) ==>
      client.queries == old(client.queries) + Uncached(domains, old(client.Cache()))
    ensures ValidFile(old(client.file)) ==> ValidFile(client.file)
    ensures ValidFile(old(client.file)) && r.Ok? ==> forall i :: 0 <= i < |r.value| ==> Ranked(r.value[i])
  {
    ghost var cache0 := client.Cache();
    ghost var queries0 := client.queries;
    var results: seq<Entry> := [];
    for i := 0 to |domains|
      invariant Tracked(domains, i, results, client.Cache(), cache0)
      invariant NoDuplicates(domains) ==> client.queries == queries0 + Uncached(domains[..i], cache0)
      invariant ValidFile(old(client.file)) ==> ValidFile(client.file)
    {
      var domain := domains[i];
      ghost var cache := client.Cache();
      ghost var queries := client.queries;
      var found := client.Lookup(domain, network(domain));
      if found.Err? {
        return Err(found.error);
      }
      TrackedStep(domains, i, results, cache, client.Cache(), cache0, found.value);
      if NoDuplicates(domains) {
        QueriesStep(domains, i, cache, cache0, queries, queries0);
      }
      results := results + [EntryOf(found.value, domain)];
    }
    assert domains[..|domains|] == domains;
    assert ValidFile(old(client.file)) ==> forall i :: 0 <= i < |results| ==> Ranked(results[i]) by {
      if ValidFile(old(client.file)) {
        forall i | 0 <= i < |results| ensures Ranked(results[i]) {
          assert results[i].grade == Some(client.Cache()[domains[i]].grade);
        }
      }
    }
    r := Ok(results);
  }

  // ---------------------------------------------------------------------------
  // Summary (lines 138-160)

  /** What the closing summary prints. */
  datatype Summary = Summary(total: nat, found: nat, unknown: nat, distribution: seq<GradeCount>, risky: seq<Entry>)

  lemma GradesDistinct()
    ensures NoDuplicates(Grades)
  {
  }

  /** When every grade is in the ranking, the distribution counts every result once. */
  lemma DistributionTotal(results: seq<Entry>)
    requires forall i :: 0 <= i < |results| ==> Ranked(results[i])
    ensures Total(Items(Grades, Tally(GradeKeys(results)))) == |results|
  {
    GradesDistinct();
    ItemsCountAll(Grades, results);
  }

  /**
   * Lines 138-160: the counts, the distribution in the fixed order
   * A, B, C, D, E, Unknown (grades without records skipped) and the results
   * graded D or E, in result order.
   */
  method Summarize(results: seq<Entry>) returns (s: Summary)
    ensures s.total == |results| && s.found + s.unknown == s.total
    ensures s.unknown == CountGraded(results, "Unknown")
    ensures s.distribution == Items(Grades, Tally(GradeKeys(results)))
    ensures (forall i :: 0 <= i < |results| ==> Ranked(results[i])) ==> Total(s.distribution) == |results|
    ensures forall e :: e in s.risky <==> e in results && IsRisky(e)
    ensures s.risky == Risky(results)
  {
    var total := |results|;
    var found := FoundCount(results);
    FoundPlusUnknown(results);
    var _, counts := CountGrades(results);
    var distribution := Items(Grades, counts);
    if forall i :: 0 <= i < |results| ==> Ranked(results[i]) {
      DistributionTotal(results);
    }
    s := Summary(total, found, total - found, distribution, Risky(results));
  }

  // ---------------------------------------------------------------------------
  // The whole run

  /** How a run of `main` ends: exit status 1 with a reason, or the reports and the summary. */
  datatype Outcome =
    | NoDomains                      // "No domains found in vault file" (lines 82-84)
    | LookupFailed(lookupError: LookupError)
    | ReportFailed(reportError: ReportError)
    | Completed(results: seq<Entry>, csv: seq<CsvRow>, report: Option<Report>, summary: Summary)

  /**
   * The summary of `results`: every result counted once as found or unknown,
   * the distribution in the fixed grade order, and the results graded D or E.
   */
  ghost predicate SummaryFor(s: Summary, results: seq<Entry>) {
    && s.total == |results| && s.found + s.unknown == s.total
    && s.unknown == CountGraded(results, "Unknown")
    && s.distribution == Items(Grades, Tally(GradeKeys(results)))
    && s.risky == Risky(results)
  }

  /** The reports are what the results give: one CSV row per result, the markdown report, and a summary of every result. */
  ghost predicate ReportsFor(outcome: Outcome, writeCsv: bool, writeMarkdown: bool)
    requires outcome.Completed?
  {
    && (writeCsv ==> |outcome.csv| == |outcome.results|
                     && forall i :: 0 <= i < |outcome.results| ==> outcome.csv[i] == Row(outcome.results[i]))
    && (!writeCsv ==> outcome.csv == [])
    && (writeMarkdown <==> outcome.report.Some?)
    && (outcome.report.Some? ==> MarkdownReport(outcome.results) == Ok(outcome.report.value))
    && SummaryFor(outcome.summary, outcome.results)
  }

  /** There is one result per domain, tagged with that domain, and the reports are what the results give. */
  ghost predicate Reported(outcome: Outcome, domains: seq<string>, writeCsv: bool, writeMarkdown: bool)
    requires outcome.Completed?
  {
    && |outcome.results| == |domains|
    && (forall i :: 0 <= i < |domains| ==> outcome.results[i].domain == Some(domains[i]))
    && ReportsFor(outcome, writeCsv, writeMarkdown)
  }

  /**
   * Lines 111-160: the CSV file unless `--markdown-only`, the markdown report
   * unless `--csv-only`, then the summary. The markdown report fails only
   * when there is no result or a result has a grade outside the ranking.
   */
  method WriteReports(results: seq<Entry>, writeCsv: bool, writeMarkdown: bool) returns (outcome: Outcome)
    ensures outcome.Completed? || outcome.ReportFailed?
    ensures outcome.Completed? ==> outcome.results == results && ReportsFor(outcome, writeCsv, writeMarkdown)
    ensures outcome.ReportFailed? <==> writeMarkdown && MarkdownReport(results).Err?
  {
    var rows: seq<CsvRow> := [];
    if writeCsv {
      rows := CsvRows(results);
    }
    var report: Option<Report> := None;
    if writeMarkdown {
      var markdown := MarkdownReport(results);
      if markdown.Err? {
        return ReportFailed(markdown.error);
      }
      report := Some(markdown.value);
    }
    var summary := Summarize(results);
    outcome := Completed(results, rows, report, summary);
  }

  /** Lines 102-160: look up the normalised domains, then write the reports and the summary. */
  method LookupAndReport(client: RatingClient, domains: seq<string>, network: string -> Response,
                         writeCsv: bool, writeMarkdown: bool)
    returns (outcome: Outcome)
    modifies client
    ensures !outcome.NoDomains?
    ensures outcome.Completed? ==> Reported(outcome, domains, writeCsv, writeMarkdown)
    ensures domains != [] && ValidFile(old(client.file)) ==> !outcome.ReportFailed?
  {
    var looked := LookupAll(client, domains, network);
    if looked.Err? {
      return LookupFailed(looked.error);
    }
    var results := looked.value;
    if domains != [] && ValidFile(old(client.file)) {
      MarkdownReportError(results);
    }
    outcome := WriteReports(results, writeCsv, writeMarkdown);
  }

  /**
   * Lines 79-160 for an export already decoded: `writeCsv` is
   * `not --markdown-only` and `writeMarkdown` is `not --csv-only`. An export
   * without domains ends the run before any lookup; with a normaliser that
   * keeps non-empty input and a cache of valid records, the reports cannot fail.
   */
  method Analyze(client: RatingClient, vault: Export, normalize: string -> string, network: string -> Response,
                 writeCsv: bool, writeMarkdown: bool)
    returns (outcome: Outcome)
    modifies client
    ensures outcome.NoDomains? <==> Extracted(vault) == []
    ensures outcome.NoDomains? ==> client.queries == old(client.queries) && client.file == old(client.file)
    ensures outcome.Completed? ==>
      Reported(outcome, DistinctNonEmpty(Normalized(Extracted(vault), normalize)), writeCsv, writeMarkdown)
    ensures KeepsNonEmpty(normalize) && ValidFile(old(client.file)) ==> !outcome.ReportFailed?
  {
    var domains := ExtractDomains(vault);
    if domains == [] {
      return NoDomains;
    }
    var normalized := NormalizeAll(domains, normalize);
    if KeepsNonEmpty(normalize) {
      ExtractedContents(vault, "");
      NormalizedNonEmpty(domains, normalize);
    }
    outcome := LookupAndReport(client, normalized, network, writeCsv, writeMarkdown);
  }
}
