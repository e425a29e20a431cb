/**
 * main(): parse, remove duplicates, number the entries, check them on a thread
 * pool of at most 50 workers, and write the report and the final summary.
 */
module Pipeline {
  import opened HostsParser
  import opened Dedup
  import opened Probing
  import opened Report

  /** The upper bound on the number of pool threads. */
  const MaxThreads: nat := 50

  /** Creating ThreadPoolExecutor(max_workers=w): the standard library refuses a
      count that is not positive with ValueError. */
  datatype PoolStart = Started(workers: nat) | Refused

  /** The behaviour of the library's constructor, taken as given. */
  function StartPool(maxWorkers: int): PoolStart {
    if maxWorkers <= 0 then Refused else Started(maxWorkers)
  }

  /** max_workers = min(50, total), as written. */
  function MaxWorkersAsWritten(total: nat): nat {
    if total < MaxThreads then total else MaxThreads
  }

  /** As written, a file without any usable entry makes the pool refuse to start, so
      main() stops before it writes a report. */
  lemma AsWrittenRefusesNoEntries(lines: seq<string>)
    requires Parse(lines) == []
    ensures StartPool(MaxWorkersAsWritten(|Unique(Parse(lines))|)).Refused?
  {
  }

  lemma AsWrittenRefusesEmptyFile()
    ensures StartPool(MaxWorkersAsWritten(|Unique(Parse([]))|)).Refused?
  {
    AsWrittenRefusesNoEntries([]);
  }

  /** The worker count the code evidently intends: up to 50 threads, one per host,
      and at least one. */
  function MaxWorkers(total: nat): (w: nat)
    ensures 1 <= w <= MaxThreads
    ensures 1 <= total ==> w <= total
    ensures total >= 1 ==> w == MaxWorkersAsWritten(total)
  {
    if total == 0 then 1 else MaxWorkersAsWritten(total)
  }

  /** With the corrected count the pool starts for every file. */
  lemma PoolAlwaysStarts(total: nat)
    ensures StartPool(MaxWorkers(total)).Started?
    ensures StartPool(MaxWorkers(total)).workers <= MaxThreads
  {
  }

  datatype RunReport = RunReport(
    pool: PoolStart,           // the executor main() creates
    rows: seq<Outcome>,        // the first sheet, in entry order
    summary: Summary,          // the RESUMO block of the first sheet
    categories: seq<Row>,      // the second sheet
    final: Summary)            // the final summary that main() logs

  /** The outcomes that the report describes: those of the unique entries, in order. */
  function Checked(lines: seq<string>, probe: Probe): seq<Outcome> {
    Outcomes(Jobs(Unique(Parse(lines))), probe)
  }

  method Run(lines: seq<string>, probe: Probe) returns (report: RunReport)
    ensures report.pool == StartPool(MaxWorkers(|Unique(Parse(lines))|))
    ensures report.pool.Started? && 1 <= report.pool.workers <= MaxThreads
    ensures report.rows == Checked(lines, probe)
    ensures report.summary == report.final == Totals(Checked(lines, probe))
    ensures IsCategoryReport(report.categories, Checked(lines, probe))
  {
    var entries := ParseHostsFile(lines);
    var unique := RemoveDuplicates(entries);
    var total := |unique|;
    var jobs := Jobs(unique);
    var pool := StartPool(MaxWorkers(total));
    PoolAlwaysStarts(total);
    var results := CollectResults(jobs, probe);
    var rows := SortByIndex(results);
    CollectedInEntryOrder(unique, probe, results);
    var summary := Totals(results);
    var categories := CategoryReport(results);
    ReportPermutation(categories, results, Checked(lines, probe));
    TotalsMeaning(results, Checked(lines, probe));
    var final := Totals(results);
    report := RunReport(pool, rows, summary, categories, final);
  }

  /** Row i of the first sheet is entry i + 1 of the unique entries, with its
      ping outcome. */
  lemma RowsAreEntries(lines: seq<string>, probe: Probe)
    ensures |Checked(lines, probe)| == |Unique(Parse(lines))|
    ensures forall i :: 0 <= i < |Checked(lines, probe)| ==>
      var r, e := Checked(lines, probe)[i], Unique(Parse(lines))[i];
      r.index == i + 1 && r.ip == e.ip && r.domain == e.domain && r.category == e.category
  {
  }

  /** An empty file yields an empty report whose figures are all zero. */
  lemma EmptyFileReport(probe: Probe, categories: seq<Row>)
    requires IsCategoryReport(categories, Checked([], probe))
    ensures Checked([], probe) == []
    ensures Totals(Checked([], probe)) == Summary(0, 0, 0)
    ensures categories == []
  {
    ReportEmpty(categories, Checked([], probe));
  }
}
