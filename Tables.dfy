/**
 The sample buffer of `GPUSystem` as a value, and the two CSV tables that
 `dump` renders from it: the `_gpu` table (compute utilization) and the
 `_mem` table (memory utilization). Both have the header
 `timestamp,device_0,...,device_{n-1}` and one row per tick
 `stamp,v_0,...,v_{n-1}`, every line terminated by LF.
 */
module Tables {
  import opened Wrappers
  import opened Csv

  /** One utilization sample of one MIG device (NVML's `nvmlUtilization_t`). */
  datatype Reading = Reading(gpu: nat, memory: nat)

  /** Which of the two tables: compute utilization or memory utilization. */
  datatype Metric = Compute | Memory

  function Value(r: Reading, m: Metric): nat {
    match m
    case Compute => r.gpu
    case Memory => r.memory
  }

  /** The buffered series: one timestamp per tick, and per device the history of its readings. */
  datatype Buffer = Buffer(timestamps: seq<int>, histories: seq<seq<Reading>>)

  /** Cross-device alignment: every device has exactly one reading per recorded tick. */
  predicate Aligned(b: Buffer) {
    forall j :: 0 <= j < |b.histories| ==> |b.histories[j]| == |b.timestamps|
  }

  /** The buffer after one tick: one timestamp, then one reading per device.
      A tick keeps an aligned buffer aligned and leaves earlier samples as they were. */
  function AppendTick(b: Buffer, stamp: int, readings: seq<Reading>): (r: Buffer)
    requires |readings| == |b.histories|
    ensures Aligned(b) ==> Aligned(r)
    ensures |r.timestamps| == |b.timestamps| + 1 && |r.histories| == |b.histories|
    ensures r.timestamps[..|b.timestamps|] == b.timestamps && r.timestamps[|b.timestamps|] == stamp
    ensures forall j :: 0 <= j < |b.histories| ==>
      && |r.histories[j]| == |b.histories[j]| + 1
      && r.histories[j][..|b.histories[j]|] == b.histories[j]
      && r.histories[j][|b.histories[j]|] == readings[j]
  {
    Buffer(b.timestamps + [stamp],
           seq(|b.histories|, j requires 0 <= j < |b.histories| => b.histories[j] + [readings[j]]))
  }

  /** The header fields: `timestamp`, then `device_i` for every device in index order. */
  function HeaderFields(n: nat): seq<string> {
    ["timestamp"] + seq(n, i requires 0 <= i < n => "device_" + NatToString(i))
  }

  /** The fields of row `i`: the i-th timestamp, then every device's i-th reading of metric `m`. */
  function RowFields(b: Buffer, i: nat, m: Metric): seq<string>
    requires Aligned(b) && i < |b.timestamps|
  {
    [IntToString(b.timestamps[i])] +
      seq(|b.histories|, j requires 0 <= j < |b.histories| => NatToString(Value(b.histories[j][i], m)))
  }

  /** The lines of the table of metric `m`: the header, then one row per tick. */
  function TableLines(b: Buffer, m: Metric): seq<string>
    requires Aligned(b)
  {
    [Join(HeaderFields(|b.histories|), ',')] +
      seq(|b.timestamps|, i requires 0 <= i < |b.timestamps| => Join(RowFields(b, i, m), ','))
  }

  /** The text of the file for metric `m`. */
  function TableText(b: Buffer, m: Metric): string
    requires Aligned(b)
  {
    Unlines(TableLines(b, m))
  }

  // ---------------------------------------------------------------------------
  // The text as the dump writes it, piece by piece

  /** The header as `print_header` writes it: `timestamp`, then `,device_i` for the first `i` devices. */
  function HeaderPrefix(i: nat): string {
    if i == 0 then "timestamp" else HeaderPrefix(i - 1) + ",device_" + NatToString(i - 1)
  }

  /** The file as the dump has written it after the header line and the first `i` rows,
      each ended by LF. */
  function TablePrefix(b: Buffer, m: Metric, i: nat): string
    requires Aligned(b) && i <= |b.timestamps|
    decreases i, 0
  {
    if i == 0 then HeaderPrefix(|b.histories|) + "\n"
    else RowPrefix(b, m, i - 1, |b.histories|) + "\n"
  }

  /** The file as the dump has written it in the middle of row `i`: the first `i` rows,
      the i-th timestamp, then `,` and the reading of metric `m` for each of the first
      `j` devices. */
  function RowPrefix(b: Buffer, m: Metric, i: nat, j: nat): string
    requires Aligned(b) && i < |b.timestamps| && j <= |b.histories|
    decreases i, j + 1
  {
    if j == 0 then TablePrefix(b, m, i) + IntToString(b.timestamps[i])
    else RowPrefix(b, m, i, j - 1) + "," + NatToString(Value(b.histories[j - 1][i], m))
  }

  /** Regroups `,device_i` as a separator and a field, on abstract strings, so that
      `HeaderPrefixJoin` need not unfold the recursive functions to prove it. */
  lemma DeviceFieldStep(text: string, num: string)
    ensures text + ",device_" + num == text + [','] + ("device_" + num)
  {
  }

  /** Writing the header device by device produces the header fields joined by commas. */
  lemma {:induction false} HeaderPrefixJoin(n: nat, i: nat)
    requires i <= n
    ensures HeaderPrefix(i) == Join(HeaderFields(n)[..i + 1], ',')
  {
    if i > 0 {
      HeaderPrefixJoin(n, i - 1);
      var fs := HeaderFields(n);
      assert fs[..i + 1][..i] == fs[..i];
      assert fs[..i + 1][i] == "device_" + NatToString(i - 1);
      DeviceFieldStep(HeaderPrefix(i - 1), NatToString(i - 1));
    }
  }

  /** Regroups a written `,` and reading as a separator and a field, on abstract strings,
      so that `RowPrefixJoin` need not unfold the recursive functions to prove it. */
  lemma CellStep(text: string, row: string, num: string)
    ensures text + row + "," + num == text + (row + [','] + num)
  {
  }

  /** Writing a row device by device appends the row fields joined by commas. */
  lemma {:induction false} RowPrefixJoin(b: Buffer, m: Metric, i: nat, j: nat)
    requires Aligned(b) && i < |b.timestamps| && j <= |b.histories|
    ensures RowPrefix(b, m, i, j) == TablePrefix(b, m, i) + Join(RowFields(b, i, m)[..j + 1], ',')
  {
    var fs := RowFields(b, i, m);
    if j > 0 {
      RowPrefixJoin(b, m, i, j - 1);
      JoinSnoc(fs, j, ',');
      CellStep(TablePrefix(b, m, i), Join(fs[..j], ','), fs[j]);
    }
  }

  /** The dump's first line is the header line of the table. */
  lemma TablePrefixHeader(b: Buffer, m: Metric)
    requires Aligned(b)
    ensures TablePrefix(b, m, 0) == TableLines(b, m)[0] + "\n"
  {
    var n := |b.histories|;
    HeaderPrefixJoin(n, n);
    assert HeaderFields(n)[..n + 1] == HeaderFields(n);
  }

  /** A completed row appends all of the row's fields joined by commas. */
  lemma RowPrefixFull(b: Buffer, m: Metric, i: nat)
    requires Aligned(b) && i < |b.timestamps|
    ensures RowPrefix(b, m, i, |b.histories|) == TablePrefix(b, m, i) + Join(RowFields(b, i, m), ',')
  {
    var n := |b.histories|;
    var row := RowFields(b, i, m);
    RowPrefixJoin(b, m, i, n);
    assert row[..n + 1] == row;
  }

  /** Line `i + 1` of the table is row `i`. */
  lemma TableLineRow(b: Buffer, m: Metric, i: nat)
    requires Aligned(b) && i < |b.timestamps|
    ensures TableLines(b, m)[i + 1] == Join(RowFields(b, i, m), ',')
  {
    var rows := seq(|b.timestamps|, k requires 0 <= k < |b.timestamps| => Join(RowFields(b, k, m), ','));
    assert TableLines(b, m) == [Join(HeaderFields(|b.histories|), ',')] + rows;
  }

  /** Each completed row adds line `i` of the table. */
  lemma TablePrefixStep(b: Buffer, m: Metric, i: nat)
    requires Aligned(b) && 0 < i <= |b.timestamps|
    ensures TablePrefix(b, m, i) == TablePrefix(b, m, i - 1) + TableLines(b, m)[i] + "\n"
  {
    RowPrefixFull(b, m, i - 1);
    TableLineRow(b, m, i - 1);
  }

  /** Writing the header and the first `i` rows produces the first `i + 1` lines of the table. */
  lemma {:induction false} TablePrefixLines(b: Buffer, m: Metric, i: nat)
    requires Aligned(b) && i <= |b.timestamps|
    ensures TablePrefix(b, m, i) == Unlines(TableLines(b, m)[..i + 1])
  {
    var ls := TableLines(b, m);
    if i == 0 {
      TablePrefixHeader(b, m);
      assert ls[..1][..0] == [];
    } else {
      TablePrefixLines(b, m, i - 1);
      TablePrefixStep(b, m, i);
      UnlinesSnoc(ls, i);
    }
  }

  /** The dump writes exactly the table. */
  lemma DumpWritesTable(b: Buffer, m: Metric)
    requires Aligned(b)
    ensures TablePrefix(b, m, |b.timestamps|) == TableText(b, m)
  {
    TablePrefixLines(b, m, |b.timestamps|);
    assert TableLines(b, m)[..|b.timestamps| + 1] == TableLines(b, m);
  }

  // ---------------------------------------------------------------------------
  // Shape of the tables

  lemma NumeralsAreFree(s: string)
    requires AllDigits(s) || (|s| > 0 && AllDigits(s[1..]) && s[0] == '-')
    ensures ',' !in s && '\n' !in s
  {
    forall k | 0 <= k < |s| ensures s[k] != ',' && s[k] != '\n' {
      if k > 0 && !AllDigits(s) {
        assert s[1..][k - 1] == s[k];
      }
    }
  }

  lemma HeaderFieldsFree(n: nat)
    ensures |HeaderFields(n)| == n + 1
    ensures forall k :: 0 <= k < n + 1 ==> ',' !in HeaderFields(n)[k] && '\n' !in HeaderFields(n)[k]
  {
    forall k | 0 < k < n + 1
      ensures ',' !in HeaderFields(n)[k] && '\n' !in HeaderFields(n)[k]
    {
      var num := NatToString(k - 1);
      NumeralsAreFree(num);
      assert HeaderFields(n)[k] == "device_" + num;
    }
  }

  lemma RowFieldsFree(b: Buffer, i: nat, m: Metric)
    requires Aligned(b) && i < |b.timestamps|
    ensures |RowFields(b, i, m)| == |b.histories| + 1
    ensures forall k :: 0 <= k < |b.histories| + 1 ==> ',' !in RowFields(b, i, m)[k] && '\n' !in RowFields(b, i, m)[k]
  {
    var fs := RowFields(b, i, m);
    var stamp := IntToString(b.timestamps[i]);
    if stamp[0] == '-' {
      assert AllDigits(stamp[1..]) by {
        forall k | 0 <= k < |stamp| - 1 ensures IsDigit(stamp[1..][k]) {
          assert stamp[1..][k] == stamp[k + 1];
        }
      }
    }
    NumeralsAreFree(stamp);
    forall k | 0 < k < |b.histories| + 1
      ensures ',' !in fs[k] && '\n' !in fs[k]
    {
      NumeralsAreFree(fs[k]);
    }
  }

  /** Table shape: the file of either metric has exactly one line more than there are
      ticks; its first line splits into the header fields and line `i + 1` into the
      `n + 1` fields of row `i`. */
  lemma {:induction false} TableShape(b: Buffer, m: Metric)
    requires Aligned(b)
    ensures Lines(TableText(b, m)) == TableLines(b, m)
    ensures |Lines(TableText(b, m))| == |b.timestamps| + 1
    ensures Split(Lines(TableText(b, m))[0], ',') == HeaderFields(|b.histories|)
    ensures forall i :: 0 <= i < |b.timestamps| ==>
      Split(Lines(TableText(b, m))[i + 1], ',') == RowFields(b, i, m) &&
      |Split(Lines(TableText(b, m))[i + 1], ',')| == |b.histories| + 1
  {
    var n := |b.histories|;
    var ls := TableLines(b, m);
    HeaderFieldsFree(n);
    SplitJoin(HeaderFields(n), ',');
    JoinFree(HeaderFields(n), ',', '\n');
    forall i | 0 <= i < |b.timestamps|
      ensures Split(ls[i + 1], ',') == RowFields(b, i, m) && '\n' !in ls[i + 1]
    {
      RowFieldsFree(b, i, m);
      SplitJoin(RowFields(b, i, m), ',');
      JoinFree(RowFields(b, i, m), ',', '\n');
    }
    forall k | 0 <= k < |ls| ensures '\n' !in ls[k] {
      if k > 0 {
        assert '\n' !in ls[(k - 1) + 1];
      }
    }
    LinesUnlines(ls);
    forall i | 0 <= i < |b.timestamps| ensures |RowFields(b, i, m)| == n + 1 {
      RowFieldsFree(b, i, m);
    }
  }

  /** Column contents: reading field 0 of line `i + 1` back gives the i-th timestamp, and
      field `j + 1` gives device `j`'s i-th reading of the table's metric. */
  lemma TableCell(b: Buffer, m: Metric, i: nat, j: nat)
    requires Aligned(b) && i < |b.timestamps| && j < |b.histories|
    ensures |Lines(TableText(b, m))| == |b.timestamps| + 1
    ensures var fields := Split(Lines(TableText(b, m))[i + 1], ',');
            && |fields| == |b.histories| + 1
            && ParseInt(fields[0]) == Some(b.timestamps[i])
            && ParseNat(fields[j + 1]) == Some(Value(b.histories[j][i], m))
  {
    TableShape(b, m);
    IntToStringRoundTrip(b.timestamps[i]);
    NatToStringRoundTrip(Value(b.histories[j][i], m));
  }

  /** Both files start with the same header line. */
  lemma SameHeader(b: Buffer)
    requires Aligned(b)
    ensures Lines(TableText(b, Compute))[0] == Lines(TableText(b, Memory))[0]
  {
    TableShape(b, Compute);
    TableShape(b, Memory);
  }

  /** A tick leaves the rows of earlier ticks as they were. */
  lemma RowsAfterTick(b: Buffer, stamp: int, readings: seq<Reading>, m: Metric, i: nat)
    requires Aligned(b) && |readings| == |b.histories| && i < |b.timestamps|
    ensures RowFields(AppendTick(b, stamp, readings), i, m) == RowFields(b, i, m)
  {
    var b' := AppendTick(b, stamp, readings);
    assert b'.timestamps[i] == b.timestamps[i];
    forall j | 0 <= j < |b.histories| ensures b'.histories[j][i] == b.histories[j][i] {
      assert b'.histories[j][..|b.histories[j]|] == b.histories[j];
    }
  }

  /** A tick adds one line to each table and changes no earlier line. */
  lemma LinesAfterTick(b: Buffer, stamp: int, readings: seq<Reading>, m: Metric)
    requires Aligned(b) && |readings| == |b.histories|
    ensures var b' := AppendTick(b, stamp, readings);
            TableLines(b', m) == TableLines(b, m) + [Join(RowFields(b', |b.timestamps|, m), ',')]
  {
    var b' := AppendTick(b, stamp, readings);
    var ls, ls' := TableLines(b, m), TableLines(b', m);
    forall k | 0 <= k < |ls| ensures ls'[k] == ls[k] {
      if k > 0 {
        RowsAfterTick(b, stamp, readings, m, k - 1);
      }
    }
  }

  /** Dumping after one more tick writes the earlier text unchanged, followed by the
      new tick's row. */
  lemma TableAfterTick(b: Buffer, stamp: int, readings: seq<Reading>, m: Metric)
    requires Aligned(b) && |readings| == |b.histories|
    ensures var b' := AppendTick(b, stamp, readings);
            TableText(b', m) == TableText(b, m) + Join(RowFields(b', |b.timestamps|, m), ',') + "\n"
  {
    var b' := AppendTick(b, stamp, readings);
    LinesAfterTick(b, stamp, readings, m);
    var ls' := TableLines(b', m);
    assert ls'[..|ls'| - 1] == TableLines(b, m);
  }

  /** The buffer after a run of ticks, one per entry of `stamps` and `samples`. */
  function AppendTicks(b: Buffer, stamps: seq<int>, samples: seq<seq<Reading>>): (r: Buffer)
    requires |samples| == |stamps|
    requires forall t :: 0 <= t < |samples| ==> |samples[t]| == |b.histories|
    ensures Aligned(b) ==> Aligned(r)
    ensures |r.histories| == |b.histories|
    decreases |stamps|
  {
    if stamps == [] then b
    else
      var k := |stamps| - 1;
      AppendTick(AppendTicks(b, stamps[..k], samples[..k]), stamps[k], samples[k])
  }

  /** Device `j`'s reading in each of `samples`, in tick order. */
  function Column(samples: seq<seq<Reading>>, j: nat): (c: seq<Reading>)
    requires forall t :: 0 <= t < |samples| ==> j < |samples[t]|
  {
    seq(|samples|, t requires 0 <= t < |samples| => samples[t][j])
  }

  lemma ColumnSnoc(h: seq<Reading>, samples: seq<seq<Reading>>, j: nat)
    requires |samples| > 0 && forall t :: 0 <= t < |samples| ==> j < |samples[t]|
    ensures var k := |samples| - 1;
            h + Column(samples[..k], j) + [samples[k][j]] == h + Column(samples, j)
  {
    var k := |samples| - 1;
    assert Column(samples[..k], j) + [samples[k][j]] == Column(samples, j);
  }

  lemma StampsSnoc(ts: seq<int>, stamps: seq<int>)
    requires |stamps| > 0
    ensures ts + stamps[..|stamps| - 1] + [stamps[|stamps| - 1]] == ts + stamps
  {
    assert stamps[..|stamps| - 1] + [stamps[|stamps| - 1]] == stamps;
  }

  /** A run of ticks appends its stamps to the timestamps and, to every device's history,
      that device's reading of each tick in order. */
  lemma {:induction false} AppendTicksSpec(b: Buffer, stamps: seq<int>, samples: seq<seq<Reading>>)
    requires |samples| == |stamps|
    requires forall t :: 0 <= t < |samples| ==> |samples[t]| == |b.histories|
    ensures var r := AppendTicks(b, stamps, samples);
            r.timestamps == b.timestamps + stamps
    ensures var r := AppendTicks(b, stamps, samples);
            forall j :: 0 <= j < |b.histories| ==> r.histories[j] == b.histories[j] + Column(samples, j)
    decreases |stamps|
  {
    if stamps != [] {
      var k := |stamps| - 1;
      var p := AppendTicks(b, stamps[..k], samples[..k]);
      AppendTicksSpec(b, stamps[..k], samples[..k]);
      var r := AppendTick(p, stamps[k], samples[k]);
      assert r.timestamps == p.timestamps + [stamps[k]];
      StampsSnoc(b.timestamps, stamps);
      forall j | 0 <= j < |b.histories| ensures r.histories[j] == b.histories[j] + Column(samples, j) {
        assert r.histories[j] == p.histories[j] + [samples[k][j]];
        ColumnSnoc(b.histories[j], samples, j);
      }
    }
  }
}
