/** The run analyser of `analyze_runs.py`: it stamps each sampled metrics row
    with its time since the first sample, reduces the rows to six resource
    statistics, merges those into the run's stored summary, and lays out one
    comparison line per run. Reading the CSV and JSON files, writing the
    reports and drawing the plots are left to the caller. */
module AnalyzeRuns {
  import opened Values
  import ParseRun

  /** One row of `metrics.csv` as `load_metrics` types it, plus the `t_rel`
      column `to_rel_time` adds (absent until then). */
  datatype SampleRow = SampleRow(
    ts: real, rssMb: real, cpuPct: real,
    vmPressureFlag: string, availMemLevel: string,
    pageinsDelta: real, pageoutsDelta: real,
    tRel: Option<real>)

  // ---------------------------------------------------------------------
  // to_rel_time
  // ---------------------------------------------------------------------

  /** `row` with `t_rel` set to its time since `t0`; nothing else changes. */
  function Stamp(row: SampleRow, t0: real): (r: SampleRow)
    ensures r.tRel == Some(row.ts - t0)
    ensures r.(tRel := row.tRel) == row
  {
    row.(tRel := Some(row.ts - t0))
  }

  /** Every row stamped with its time since `t0`, in order. */
  function StampAll(rows: seq<SampleRow>, t0: real): (r: seq<SampleRow>)
    ensures |r| == |rows|
    ensures forall i :: 0 <= i < |rows| ==> r[i] == Stamp(rows[i], t0)
  {
    if rows == [] then [] else [Stamp(rows[0], t0)] + StampAll(rows[1..], t0)
  }

  /** The rows as `to_rel_time` leaves them: the same number of rows in the
      same order, every column but `t_rel` unchanged, the first row's
      `t_rel` 0 and every row's its `ts` minus the first row's. */
  function RelTime(rows: seq<SampleRow>): (r: seq<SampleRow>)
    ensures |r| == |rows|
    ensures forall i :: 0 <= i < |rows| ==>
      r[i].tRel == Some(rows[i].ts - rows[0].ts) && r[i].(tRel := rows[i].tRel) == rows[i]
    ensures rows != [] ==> r[0].tRel == Some(0.0)
  {
    if rows == [] then rows else StampAll(rows, rows[0].ts)
  }

  /** `to_rel_time(rows)`: the rows are updated in place, in order. */
  method ToRelTime(rows: array<SampleRow>)
    modifies rows
    ensures rows[..] == RelTime(old(rows[..]))
  {
    if rows.Length == 0 {
      return;
    }
    ghost var original := rows[..];
    var t0 := rows[0].ts;
    for i := 0 to rows.Length
      invariant rows[..i] == StampAll(original[..i], t0)
      invariant rows[i..] == original[i..]
    {
      assert rows[i] == original[i];
      rows[i] := Stamp(rows[i], t0);
      assert rows[..i + 1] == rows[..i] + [rows[i]];
      assert original[..i + 1] == original[..i] + [original[i]];
      StampAllAppend(original[..i], original[i], t0);
    }
    assert rows[..] == rows[..rows.Length] && original == original[..rows.Length];
  }

  lemma StampAllAppend(rows: seq<SampleRow>, row: SampleRow, t0: real)
    ensures StampAll(rows + [row], t0) == StampAll(rows, t0) + [Stamp(row, t0)]
  {
    var r, s := StampAll(rows + [row], t0), StampAll(rows, t0) + [Stamp(row, t0)];
    assert |r| == |s|;
    forall i | 0 <= i < |r| ensures r[i] == s[i] {
      if i < |rows| {
        assert (rows + [row])[i] == rows[i];
      }
    }
  }

  // ---------------------------------------------------------------------
  // summarize_metrics
  // ---------------------------------------------------------------------

  /** The largest value of a non-empty sequence, as `max` returns it. */
  function Max(xs: seq<real>): (m: real)
    requires xs != []
    ensures forall i :: 0 <= i < |xs| ==> xs[i] <= m
    ensures exists i :: 0 <= i < |xs| && xs[i] == m
  {
    if |xs| == 1 then xs[0]
    else
      var rest := Max(xs[1..]);
      assert forall i :: 1 <= i < |xs| ==> xs[i] == xs[1..][i - 1];
      if xs[0] >= rest then xs[0] else rest
  }

  /** The smallest value of a non-empty sequence. */
  function Min(xs: seq<real>): (m: real)
    requires xs != []
    ensures forall i :: 0 <= i < |xs| ==> m <= xs[i]
    ensures exists i :: 0 <= i < |xs| && xs[i] == m
  {
    if |xs| == 1 then xs[0]
    else
      var rest := Min(xs[1..]);
      assert forall i :: 1 <= i < |xs| ==> xs[i] == xs[1..][i - 1];
      if xs[0] <= rest then xs[0] else rest
  }

  function Sum(xs: seq<real>): real {
    if xs == [] then 0.0 else xs[0] + Sum(xs[1..])
  }

  /** `statistics.mean` of a non-empty sequence, computed exactly: the value
      that, taken once per element, adds up to the sum, and that lies
      between the smallest and the largest element. */
  function Mean(xs: seq<real>): (m: real)
    requires xs != []
    ensures m * |xs| as real == Sum(xs)
    ensures Min(xs) <= m <= Max(xs)
  {
    SumBounds(xs, Min(xs), Max(xs));
    QuotientBounds(Sum(xs), |xs| as real, Min(xs), Max(xs));
    Sum(xs) / |xs| as real
  }

  /** The sum of `n` values that all lie between `lo` and `hi` lies between
      `n` times `lo` and `n` times `hi`. */
  lemma {:induction false} SumBounds(xs: seq<real>, lo: real, hi: real)
    requires forall i :: 0 <= i < |xs| ==> lo <= xs[i] <= hi
    ensures |xs| as real * lo <= Sum(xs) <= |xs| as real * hi
  {
    if xs != [] {
      var rest := xs[1..];
      assert forall i :: 0 <= i < |rest| ==> rest[i] == xs[i + 1];
      SumBounds(rest, lo, hi);
      var m := |rest| as real;
      assert |xs| as real == m + 1.0;
      assert Sum(xs) == xs[0] + Sum(rest);
      assert lo <= xs[0] <= hi;
      assert m * lo <= Sum(rest) <= m * hi;
      Distribute(|xs| as real, m, lo);
      Distribute(|xs| as real, m, hi);
    }
  }

  lemma Distribute(n: real, m: real, x: real)
    requires n == m + 1.0
    ensures n * x == m * x + x
  {
  }

  /** A quotient by a positive count keeps the bounds its dividend has. */
  lemma QuotientBounds(s: real, n: real, lo: real, hi: real)
    requires 0.0 < n && n * lo <= s <= n * hi
    ensures lo <= s / n <= hi
    ensures s / n * n == s
  {
    assert s / n * n == s;
  }

  /** The RSS column (`rss_mb`) of the rows. */
  function Rss(rows: seq<SampleRow>): (xs: seq<real>)
    ensures |xs| == |rows| && forall i :: 0 <= i < |rows| ==> xs[i] == rows[i].rssMb
  {
    seq(|rows|, i requires 0 <= i < |rows| => rows[i].rssMb)
  }

  /** The CPU column (`cpu_pct`) of the rows. */
  function Cpu(rows: seq<SampleRow>): (xs: seq<real>)
    ensures |xs| == |rows| && forall i :: 0 <= i < |rows| ==> xs[i] == rows[i].cpuPct
  {
    seq(|rows|, i requires 0 <= i < |rows| => rows[i].cpuPct)
  }

  /** The six statistics of a run. */
  datatype Stats = Stats(
    rssPeakMb: real, rssMeanMb: real, cpuMeanPct: real,
    pageinsFinal: real, pageoutsFinal: real, durationS: real)

  /** `summarize_metrics(rows)`. No rows give 0.0 throughout; otherwise the
      peak and mean RSS, the mean CPU, and the last row's page-in and
      page-out deltas and `t_rel`, which raises `KeyError` when
      `to_rel_time` has not stamped the rows. */
  function SummarizeMetrics(rows: seq<SampleRow>): (r: Result<Stats>)
    ensures rows == [] ==> r == Ok(Stats(0.0, 0.0, 0.0, 0.0, 0.0, 0.0))
    ensures rows != [] ==> (r.Ok? <==> rows[|rows| - 1].tRel.Some?)
    ensures r.Err? ==> r.error == MissingField("t_rel")
    ensures r.Ok? && rows != [] ==>
      var last := rows[|rows| - 1];
      && r.value.pageinsFinal == last.pageinsDelta
      && r.value.pageoutsFinal == last.pageoutsDelta
      && Some(r.value.durationS) == last.tRel
  {
    if rows == [] then Ok(Stats(0.0, 0.0, 0.0, 0.0, 0.0, 0.0))
    else
      var last := rows[|rows| - 1];
      match last.tRel
      case None => Err(MissingField("t_rel"))
      case Some(duration) =>
        Ok(Stats(Max(Rss(rows)), Mean(Rss(rows)), Mean(Cpu(rows)),
                 last.pageinsDelta, last.pageoutsDelta, duration))
  }

  /** The peak RSS is at least every row's RSS and is the RSS of some row;
      the mean RSS lies between the smallest and the largest row's RSS. */
  lemma PeakAndMean(rows: seq<SampleRow>)
    requires rows != [] && SummarizeMetrics(rows).Ok?
    ensures var s := SummarizeMetrics(rows).value;
      && (forall i :: 0 <= i < |rows| ==> rows[i].rssMb <= s.rssPeakMb)
      && (exists i :: 0 <= i < |rows| && rows[i].rssMb == s.rssPeakMb)
      && Min(Rss(rows)) <= s.rssMeanMb <= s.rssPeakMb
  {
    var s := SummarizeMetrics(rows).value;
    assert s.rssPeakMb == Max(Rss(rows)) && s.rssMeanMb == Mean(Rss(rows));
    var i :| 0 <= i < |Rss(rows)| && Rss(rows)[i] == Max(Rss(rows));
    assert rows[i].rssMb == s.rssPeakMb;
  }

  /** For a single stamped row, peak and mean RSS are that row's RSS, the
      mean CPU is its CPU, the final counts are its deltas and the
      duration is 0. */
  lemma SingleRowStats(row: SampleRow)
    ensures var s := SummarizeMetrics(RelTime([row])).value;
      && s.rssPeakMb == s.rssMeanMb == row.rssMb && s.cpuMeanPct == row.cpuPct
      && s.pageinsFinal == row.pageinsDelta && s.pageoutsFinal == row.pageoutsDelta
      && s.durationS == 0.0
  {
    var stamped := RelTime([row]);
    var r := stamped[0];
    assert stamped == [r];
    assert Rss(stamped) == [row.rssMb] && Cpu(stamped) == [row.cpuPct];
    assert Sum([row.rssMb]) == row.rssMb + Sum([]);
    assert Sum([row.cpuPct]) == row.cpuPct + Sum([]);
  }

  /** Three samples of 100, 150 and 120 MB taken at 1000, 1005 and 1010 s:
      a peak of 150 MB, a mean of 370/3 MB and a duration of 10 s. */
  lemma ThreeSampleRun(a: SampleRow, b: SampleRow, c: SampleRow)
    requires a.ts == 1000.0 && b.ts == 1005.0 && c.ts == 1010.0
    requires a.rssMb == 100.0 && b.rssMb == 150.0 && c.rssMb == 120.0
    ensures var s := SummarizeMetrics(RelTime([a, b, c])).value;
      s.rssPeakMb == 150.0 && s.rssMeanMb == 370.0 / 3.0 && s.durationS == 10.0
  {
    var stamped := RelTime([a, b, c]);
    var rss := Rss(stamped);
    assert rss == [100.0, 150.0, 120.0];
    assert rss[1..] == [150.0, 120.0] && rss[2..] == [120.0];
    assert Sum(rss) == 370.0 by {
      assert Sum([120.0]) == 120.0 + Sum([]);
    }
    assert Max(rss[2..]) == 120.0;
  }

  /** After `to_rel_time`, `summarize_metrics` never raises, and the duration
      is the time from the first sample to the last. */
  lemma StampedRowsSummarize(rows: seq<SampleRow>)
    ensures SummarizeMetrics(RelTime(rows)).Ok?
    ensures rows != [] ==>
      SummarizeMetrics(RelTime(rows)).value.durationS == rows[|rows| - 1].ts - rows[0].ts
  {
  }

  // ---------------------------------------------------------------------
  // analyze_run
  // ---------------------------------------------------------------------

  /** The statistics as the record `summarize_metrics` returns. */
  function StatsRecord(s: Stats): (r: Record)
    ensures forall k :: k in r <==> k.IsStat()
    ensures && RssPeakMb in r && r[RssPeakMb] == Num(s.rssPeakMb)
            && RssMeanMb in r && r[RssMeanMb] == Num(s.rssMeanMb)
            && CpuMeanPct in r && r[CpuMeanPct] == Num(s.cpuMeanPct)
            && PageinsFinal in r && r[PageinsFinal] == Num(s.pageinsFinal)
            && PageoutsFinal in r && r[PageoutsFinal] == Num(s.pageoutsFinal)
            && DurationS in r && r[DurationS] == Num(s.durationS)
  {
    map[RssPeakMb := Num(s.rssPeakMb), RssMeanMb := Num(s.rssMeanMb),
        CpuMeanPct := Num(s.cpuMeanPct), PageinsFinal := Num(s.pageinsFinal),
        PageoutsFinal := Num(s.pageoutsFinal), DurationS := Num(s.durationS)]
  }

  /** `{**base, **stats}`: every key of either record; a key of `stats`
      takes its `stats` value, any other key keeps its `base` value. */
  function Merge<K>(base: map<K, Value>, stats: map<K, Value>): (m: map<K, Value>)
    ensures m.Keys == base.Keys + stats.Keys
    ensures forall k :: k in stats ==> m[k] == stats[k]
    ensures forall k :: k in base && k !in stats ==> m[k] == base[k]
  {
    base + stats
  }

  /** Merging the same statistics again changes nothing, so re-analysing a
      merged summary gives the same record. */
  lemma MergeIdempotent<K>(base: map<K, Value>, stats: map<K, Value>)
    ensures Merge(Merge(base, stats), stats) == Merge(base, stats)
  {
    var once, twice := Merge(base, stats), Merge(Merge(base, stats), stats);
    assert once.Keys == twice.Keys;
    forall k | k in once ensures once[k] == twice[k] {
      if k !in stats {
        assert k in base;
      }
    }
  }

  /** The statistics of a run's rows once they are stamped; computing them
      never raises. */
  function RunStats(rows: seq<SampleRow>): (s: Stats)
    ensures SummarizeMetrics(RelTime(rows)) == Ok(s)
  {
    StampedRowsSummarize(rows);
    SummarizeMetrics(RelTime(rows)).value
  }

  /** What `analyze_run` returns for a run: the stored summary with the
      statistics of its stamped rows merged over it. It holds the stored
      summary's fields and the six statistics, and every field other than
      a statistic is the stored one. */
  function AnalyzedRecord(base: Record, rows: seq<SampleRow>): (m: Record)
    ensures forall k :: k in m <==> k in base || k.IsStat()
    ensures forall k :: k in base && !k.IsStat() ==> m[k] == base[k]
  {
    Merge(base, StatsRecord(RunStats(rows)))
  }

  /** A record with statistics merged over it holds its own fields and the
      six statistics; every field other than a statistic is the record's
      own. */
  lemma MergedFields(base: Record, s: Stats)
    ensures var m := Merge(base, StatsRecord(s));
      && (forall k :: k in m <==> k in base || k.IsStat())
      && (forall k :: k in base && !k.IsStat() ==> m[k] == base[k])
  {
  }

  /** The six statistics of a record with statistics merged over it are the
      merged ones, whatever the record held before. */
  lemma MergedStats(base: Record, s: Stats)
    ensures var m := Merge(base, StatsRecord(s));
      && RssPeakMb in m && m[RssPeakMb] == Num(s.rssPeakMb)
      && RssMeanMb in m && m[RssMeanMb] == Num(s.rssMeanMb)
      && CpuMeanPct in m && m[CpuMeanPct] == Num(s.cpuMeanPct)
      && PageinsFinal in m && m[PageinsFinal] == Num(s.pageinsFinal)
      && PageoutsFinal in m && m[PageoutsFinal] == Num(s.pageoutsFinal)
      && DurationS in m && m[DurationS] == Num(s.durationS)
  {
    var st := StatsRecord(s);
    assert RssPeakMb in st && RssMeanMb in st && CpuMeanPct in st;
    assert PageinsFinal in st && PageoutsFinal in st && DurationS in st;
  }

  /** Stamping the rows leaves the RSS and CPU columns as they were. */
  lemma ColumnsOfRelTime(rows: seq<SampleRow>)
    ensures Rss(RelTime(rows)) == Rss(rows) && Cpu(RelTime(rows)) == Cpu(rows)
  {
    var r := RelTime(rows);
    forall i | 0 <= i < |rows| ensures r[i].rssMb == rows[i].rssMb && r[i].cpuPct == rows[i].cpuPct {
      assert r[i].(tRel := rows[i].tRel) == rows[i];
    }
  }

  /** The statistics of a run in terms of its raw rows: zeros for no rows,
      otherwise the peak and mean RSS and the mean CPU over all rows, the
      last row's page-in and page-out deltas, and the time from the first
      sample to the last. */
  lemma RunStatsOfRows(rows: seq<SampleRow>)
    ensures rows == [] ==> RunStats(rows) == Stats(0.0, 0.0, 0.0, 0.0, 0.0, 0.0)
    ensures rows != [] ==> var last := rows[|rows| - 1];
      RunStats(rows) == Stats(Max(Rss(rows)), Mean(Rss(rows)), Mean(Cpu(rows)),
                              last.pageinsDelta, last.pageoutsDelta, last.ts - rows[0].ts)
  {
    ColumnsOfRelTime(rows);
    if rows != [] {
      var r := RelTime(rows);
      assert r[|r| - 1].(tRel := rows[|rows| - 1].tRel) == rows[|rows| - 1];
    }
  }

  /** A run without metrics rows has all six statistics 0. */
  lemma AnalyzedStatsNoRows(base: Record)
    ensures var m := AnalyzedRecord(base, []);
      forall k: Field :: k.IsStat() ==> k in m && m[k] == Num(0.0)
  {
    var m := AnalyzedRecord(base, []);
    var st := StatsRecord(RunStats([]));
    RunStatsOfRows([]);
    forall k: Field | k.IsStat() ensures k in m && m[k] == Num(0.0) {
      assert k in st;
    }
  }

  /** The six statistics of a run's merged record, in terms of its raw
      rows. */
  lemma AnalyzedStats(base: Record, rows: seq<SampleRow>)
    ensures rows != [] ==> var m, last := AnalyzedRecord(base, rows), rows[|rows| - 1];
      && RssPeakMb in m && m[RssPeakMb] == Num(Max(Rss(rows)))
      && RssMeanMb in m && m[RssMeanMb] == Num(Mean(Rss(rows)))
      && CpuMeanPct in m && m[CpuMeanPct] == Num(Mean(Cpu(rows)))
      && PageinsFinal in m && m[PageinsFinal] == Num(last.pageinsDelta)
      && PageoutsFinal in m && m[PageoutsFinal] == Num(last.pageoutsDelta)
      && DurationS in m && m[DurationS] == Num(last.ts - rows[0].ts)
  {
    var s := RunStats(rows);
    RunStatsOfRows(rows);
    MergedStats(base, s);
    if rows != [] {
      var last := rows[|rows| - 1];
      assert s.rssPeakMb == Max(Rss(rows)) && s.rssMeanMb == Mean(Rss(rows));
      assert s.cpuMeanPct == Mean(Cpu(rows)) && s.pageinsFinal == last.pageinsDelta;
      assert s.pageoutsFinal == last.pageoutsDelta && s.durationS == last.ts - rows[0].ts;
    }
  }

  /** `analyze_run(run_dir, report_dir)` on a run whose stored summary is
      `base` and whose metrics rows are `rows`: the rows are stamped in
      place and the merged record is returned. */
  method AnalyzeRun(base: Record, rows: array<SampleRow>) returns (merged: Record)
    modifies rows
    ensures rows[..] == RelTime(old(rows[..]))
    ensures merged == AnalyzedRecord(base, old(rows[..]))
  {
    ToRelTime(rows);
    StampedRowsSummarize(old(rows[..]));
    var stats := SummarizeMetrics(rows[..]);
    merged := Merge(base, StatsRecord(stats.value));
  }

  // ---------------------------------------------------------------------
  // main: the comparison list and the table
  // ---------------------------------------------------------------------

  /** One run as `main` finds it: the stored summary and the metrics rows. */
  datatype RunInput = RunInput(base: Record, rows: seq<SampleRow>)

  /** The comparison list: one merged record per run, in the order the runs
      were given. */
  function Comparison(runs: seq<RunInput>): (merged: seq<Record>)
    ensures |merged| == |runs|
    ensures forall i :: 0 <= i < |runs| ==>
      merged[i] == AnalyzedRecord(runs[i].base, runs[i].rows)
  {
    seq(|runs|, i requires 0 <= i < |runs| => AnalyzedRecord(runs[i].base, runs[i].rows))
  }

  /** The columns of a table line, each with the placeholder printed when
      the record lacks the field (`ctx` has none, so it prints `None`). */
  const Columns: seq<(Field, Value)> := [
    (Tag, Str("")), (Ctx, Null), (GenTps, Str("?")),
    (MetalModel, Str("?")), (RssPeakMb, Int(0)), (PageoutsFinal, Int(0))]

  /** The cells of the table line printed for one merged record, before
      they are rendered as text. */
  function TableLine(m: Record): (line: seq<Value>)
    ensures |line| == |Columns|
  {
    seq(|Columns|, i requires 0 <= i < |Columns| => Get(m, Columns[i].0, Columns[i].1))
  }

  /** `main`'s printing loop: one table line per merged record, in order.
      No record, whatever fields it lacks, stops the report. */
  method ReportTable(merged: seq<Record>) returns (lines: seq<seq<Value>>)
    ensures |lines| == |merged|
    ensures forall i :: 0 <= i < |merged| ==> lines[i] == TableLine(merged[i])
  {
    lines := [];
    for i := 0 to |merged|
      invariant |lines| == i
      invariant forall j :: 0 <= j < i ==> lines[j] == TableLine(merged[j])
    {
      lines := lines + [TableLine(merged[i])];
    }
  }

  /** The table line of a run summarised by the run summariser and then
      analysed: the tag and the context size are the summary's own, the
      rate shows `?` exactly when the log had no throughput line, the model
      memory shows `?` exactly when it had no memory breakdown, and the
      peak RSS and final page-outs are the run's statistics, never the
      placeholders. */
  lemma PipelineLine(runDir: string, configText: string, logText: string,
                     metals: seq<ParseRun.MetalBreakdown>, rows: seq<SampleRow>)
    requires ParseRun.RunSummary(runDir, configText, logText, metals).Ok?
    ensures var base := ParseRun.RunSummary(runDir, configText, logText, metals).value;
      var line := TableLine(AnalyzedRecord(base, rows));
      var s := RunStats(rows);
      && line[0].Str? && line[1].Int?
      && (line[2] == Str("?") <==> ParseRun.FindAllThroughput(logText, 0) == [])
      && (line[3] == Str("?") <==> metals == [])
      && line[4] == Num(s.rssPeakMb) && line[5] == Num(s.pageoutsFinal)
  {
    var base := ParseRun.RunSummary(runDir, configText, logText, metals).value;
    var tputs := ParseRun.FindAllThroughput(logText, 0);
    ParseRun.SummaryShape(runDir, configText, logText, metals);
    assert Tag in base && Ctx in base;
    assert GenTps in base <==> tputs != [] by {
      assert GenTps.IsThroughput() && !GenTps.IsFixed() && !GenTps.IsMetal();
    }
    assert MetalModel in base <==> metals != [] by {
      assert MetalModel.IsMetal() && !MetalModel.IsFixed() && !MetalModel.IsThroughput();
    }
    RunCells(base, RunStats(rows));
    LogCells(base, RunStats(rows));
    StatsCells(base, RunStats(rows));
  }

  /** The first two cells of the table line of a summary with statistics
      merged over it: the summary's tag and context size, or their
      placeholders. */
  lemma RunCells(base: Record, s: Stats)
    ensures var line := TableLine(Merge(base, StatsRecord(s)));
      line[0] == Get(base, Tag, Str("")) && line[1] == Get(base, Ctx, Null)
  {
    LineCells(Merge(base, StatsRecord(s)));
    MergedGet(base, s, Tag, Str(""));
    MergedGet(base, s, Ctx, Null);
  }

  /** The third and fourth cells: the summary's generation rate and model
      memory, or `?`. */
  lemma LogCells(base: Record, s: Stats)
    ensures var line := TableLine(Merge(base, StatsRecord(s)));
      line[2] == Get(base, GenTps, Str("?")) && line[3] == Get(base, MetalModel, Str("?"))
  {
    LineCells(Merge(base, StatsRecord(s)));
    MergedGet(base, s, GenTps, Str("?"));
    MergedGet(base, s, MetalModel, Str("?"));
  }

  /** The last two cells of the table line of a summary with statistics
      merged over it are the statistics, never the placeholders. */
  lemma StatsCells(base: Record, s: Stats)
    ensures var line := TableLine(Merge(base, StatsRecord(s)));
      line[4] == Num(s.rssPeakMb) && line[5] == Num(s.pageoutsFinal)
  {
    var m := Merge(base, StatsRecord(s));
    LineCells(m);
    MergedStats(base, s);
  }

  /** Merging statistics leaves every other field as the record had it,
      present or absent. */
  lemma MergedGet(base: Record, s: Stats, k: Field, default: Value)
    requires !k.IsStat()
    ensures Get(Merge(base, StatsRecord(s)), k, default) == Get(base, k, default)
  {
  }

  /** The six cells of a table line, column by column. */
  lemma LineCells(m: Record)
    ensures var line := TableLine(m);
      && line[0] == Get(m, Tag, Str(""))
      && line[1] == Get(m, Ctx, Null)
      && line[2] == Get(m, GenTps, Str("?"))
      && line[3] == Get(m, MetalModel, Str("?"))
      && line[4] == Get(m, RssPeakMb, Int(0))
      && line[5] == Get(m, PageoutsFinal, Int(0))
  {
  }
}
