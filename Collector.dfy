/**
 The `GPUSystem` collector and the `GPUDevice` handles it owns. Construction
 runs the discovery loop over the GPUs and their MIG slots; one sampling tick
 records a timestamp and then queries every device in index order; `dump`
 renders the buffered series as the `_gpu` and `_mem` CSV files.
 */
module Collector {
  import opened Wrappers
  import opened Csv
  import opened Discovery
  import opened Tables

  /** One monitored MIG device (`GPUDevice`): the NVML handle it wraps and its
      private, append-only history of readings. */
  class GpuDevice {
    const handle: nat
    var history: seq<Reading>

    constructor (handle: nat)
      ensures this.handle == handle && history == []
    {
      this.handle := handle;
      history := [];
    }

    /** `query()`: takes the device's current utilization and appends it to the history. */
    method Query(reading: Reading)
      modifies this
      ensures history == old(history) + [reading]
    {
      history := history + [reading];
    }

    /** `get_utilization(i)`: the i-th recorded reading. */
    function GetUtilization(i: nat): Reading
      reads this
      requires i < |history|
    {
      history[i]
    }
  }

  /** An output file: its name and the whole text written to it. */
  datatype CsvFile = CsvFile(name: string, text: string)

  class GpuSystem {
    const fname: string
    const devices: seq<GpuDevice>
    const numDevices: nat
    var timestamps: seq<int>

    /** The collector's invariant between ticks: `numDevices` is the device count,
        every device object is owned once, and every device has one reading per timestamp. */
    ghost predicate Valid()
      reads this, devices
    {
      && numDevices == |devices|
      && (forall a, b :: 0 <= a < b < |devices| ==> devices[a] != devices[b])
      && (forall j :: 0 <= j < |devices| ==> |devices[j].history| == |timestamps|)
    }

    /** The buffered series as a value. */
    ghost function Snapshot(): (b: Buffer)
      reads this, devices
      requires Valid()
      ensures Aligned(b) && |b.histories| == numDevices && b.timestamps == timestamps
      ensures forall j :: 0 <= j < numDevices ==> b.histories[j] == devices[j].history
    {
      Buffer(timestamps, seq(|devices|, j requires 0 <= j < |devices| reads devices => devices[j].history))
    }

    /** `GPUSystem(filename)`: discovers the MIG devices of every GPU, GPU by GPU and
        slot by slot, and creates one device per resolved slot in that order. The
        constructor's `assert`s are the precondition that discovery does not abort. */
    constructor (filename: string, reports: seq<GpuReport>)
      requires Discover(reports).Success?
      ensures Valid() && fname == filename && timestamps == []
      ensures |devices| == |Discover(reports).value|
      ensures forall j :: 0 <= j < |devices| ==>
        devices[j].handle == Discover(reports).value[j].handle && fresh(devices[j])
    {
      var found: seq<GpuDevice> := [];
      ghost var discovered: seq<MigDevice> := [];
      var i := 0;
      while i < |reports|
        invariant 0 <= i <= |reports|
        invariant Discover(reports[..i]) == Success(discovered)
        invariant |found| == |discovered|
        invariant forall j :: 0 <= j < |found| ==> found[j].handle == discovered[j].handle
        invariant forall j :: 0 <= j < |found| ==> found[j].history == [] && fresh(found[j])
        invariant forall a, b :: 0 <= a < b < |found| ==> found[a] != found[b]
      {
        var r := reports[i];
        DiscoverNext(reports, i);
        DiscoverGpuSpec(i, r);
        assert r.migMode.Some?;
        assert r.migMode.value == MigEnabled;
        assert r.maxMigDeviceCount.Some?;
        var max := r.maxMigDeviceCount.value;
        var fromGpu, migIdx := OpenMigDevices(r, max);
        found := found + fromGpu;
        ghost var added := PrefixDevices(i, r, migIdx);
        ghost var next := discovered + added;
        forall j | 0 <= j < |found| ensures found[j].handle == next[j].handle {
          if j < |discovered| {
            assert next[j] == discovered[j];
          } else {
            assert next[j] == added[j - |discovered|];
          }
        }
        discovered := next;
        i := i + 1;
      }
      assert reports[..|reports|] == reports;
      fname := filename;
      devices := found;
      numDevices := |found|;
      timestamps := [];
    }

    /** The slot loop of the constructor for one GPU: opens a device for each slot from 0
        up, stopping at `max` or at the first slot NVML does not resolve. */
    static method OpenMigDevices(r: GpuReport, max: nat) returns (slotDevices: seq<GpuDevice>, count: nat)
      requires forall s :: 0 <= s < ResolvedPrefix(r, max) ==> IsMigHandle(SlotAt(r, s))
      ensures count == ResolvedPrefix(r, max) && |slotDevices| == count
      ensures forall s :: 0 <= s < count ==> slotDevices[s].handle == SlotAt(r, s).handle
      ensures forall s :: 0 <= s < count ==> slotDevices[s].history == [] && fresh(slotDevices[s])
      ensures forall a, b :: 0 <= a < b < count ==> slotDevices[a] != slotDevices[b]
    {
      ghost var prefix := ResolvedPrefix(r, max);
      slotDevices := [];
      count := 0;
      while count < max
        invariant 0 <= count <= prefix && |slotDevices| == count
        invariant forall s :: 0 <= s < count ==> SlotAt(r, s).Resolved?
        invariant forall s :: 0 <= s < count ==> slotDevices[s].handle == SlotAt(r, s).handle
        invariant forall s :: 0 <= s < count ==> slotDevices[s].history == [] && fresh(slotDevices[s])
        invariant forall a, b :: 0 <= a < b < count ==> slotDevices[a] != slotDevices[b]
      {
        var answer := SlotAt(r, count);
        if answer.Unresolved? {
          break;
        }
        assert count < prefix by {
          assert SlotAt(r, prefix).Unresolved? || prefix == max;
        }
        assert answer.isMigDevice == Some(true);
        var d := new GpuDevice(answer.handle);
        slotDevices := slotDevices + [d];
        count := count + 1;
      }
      ResolvedPrefixUnique(r, max, count);
    }

    /** One iteration of `start()`'s loop: record the timestamp, then query every
        device in index order. Alignment holds again once the tick is complete. */
    method Tick(stamp: int, readings: seq<Reading>)
      requires Valid() && |readings| == numDevices
      modifies this, devices
      ensures Valid()
      ensures timestamps == old(timestamps) + [stamp]
      ensures forall j :: 0 <= j < numDevices ==> devices[j].history == old(devices[j].history) + [readings[j]]
      ensures Snapshot() == AppendTick(old(Snapshot()), stamp, readings)
    {
      timestamps := timestamps + [stamp];
      var j := 0;
      while j < numDevices
        invariant 0 <= j <= numDevices
        invariant timestamps == old(timestamps) + [stamp]
        invariant forall k :: 0 <= k < j ==> devices[k].history == old(devices[k].history) + [readings[k]]
        invariant forall k :: j <= k < numDevices ==> devices[k].history == old(devices[k].history)
      {
        devices[j].Query(readings[j]);
        j := j + 1;
      }
    }

    /** `start()` run for a finite number of ticks: tick `t` records `stamps[t]` and gives
        device `j` the reading `samples[t][j]`. */
    method Start(stamps: seq<int>, samples: seq<seq<Reading>>)
      requires Valid() && |samples| == |stamps|
      requires forall t :: 0 <= t < |samples| ==> |samples[t]| == numDevices
      modifies this, devices
      ensures Valid()
      ensures Snapshot() == AppendTicks(old(Snapshot()), stamps, samples)
    {
      ghost var b0 := Snapshot();
      var t := 0;
      while t < |stamps|
        invariant 0 <= t <= |stamps| && Valid()
        invariant Snapshot() == AppendTicks(b0, stamps[..t], samples[..t])
      {
        Tick(stamps[t], samples[t]);
        assert stamps[..t + 1][..t] == stamps[..t];
        assert samples[..t + 1][..t] == samples[..t];
        t := t + 1;
      }
      assert stamps[..t] == stamps && samples[..t] == samples;
    }

    /** `print_header`: the header line of both files. */
    method PrintHeader() returns (text: string)
      ensures text == HeaderPrefix(numDevices) + "\n"
    {
      text := "timestamp";
      var i := 0;
      while i < numDevices
        invariant 0 <= i <= numDevices
        invariant text == HeaderPrefix(i)
      {
        text := text + ",device_" + NatToString(i);
        i := i + 1;
      }
      text := text + "\n";
    }

    /** The body of `dump()`'s loop: writes row `i` to both texts, the timestamp and then
        `,` and device `j`'s i-th reading for every device in index order, then LF. */
    method WriteRow(ghost b: Buffer, i: nat, gpu: string, mem: string) returns (gpu': string, mem': string)
      requires Valid() && b == Snapshot() && i < |timestamps|
      requires gpu == TablePrefix(b, Compute, i) && mem == TablePrefix(b, Memory, i)
      ensures gpu' == TablePrefix(b, Compute, i + 1)
      ensures mem' == TablePrefix(b, Memory, i + 1)
    {
      gpu' := gpu + IntToString(timestamps[i]);
      mem' := mem + IntToString(timestamps[i]);
      var j := 0;
      while j < numDevices
        invariant 0 <= j <= numDevices
        invariant gpu' == RowPrefix(b, Compute, i, j)
        invariant mem' == RowPrefix(b, Memory, i, j)
      {
        var u := devices[j].GetUtilization(i);
        gpu' := gpu' + "," + NatToString(u.gpu);
        mem' := mem' + "," + NatToString(u.memory);
        j := j + 1;
      }
      gpu' := gpu' + "\n";
      mem' := mem' + "\n";
    }

    /** `dump()`'s row loop: from the header line on, one row per tick in both texts. */
    method WriteRows(ghost b: Buffer, gpu: string, mem: string) returns (gpu': string, mem': string)
      requires Valid() && b == Snapshot()
      requires gpu == TablePrefix(b, Compute, 0) && mem == TablePrefix(b, Memory, 0)
      ensures gpu' == TablePrefix(b, Compute, |b.timestamps|)
      ensures mem' == TablePrefix(b, Memory, |b.timestamps|)
    {
      gpu', mem' := gpu, mem;
      var i := 0;
      while i < |timestamps|
        invariant 0 <= i <= |timestamps|
        invariant gpu' == TablePrefix(b, Compute, i)
        invariant mem' == TablePrefix(b, Memory, i)
      {
        gpu', mem' := WriteRow(b, i, gpu', mem');
        i := i + 1;
      }
    }

    /** `dump()`'s text: the header line in both texts, then the rows. */
    method WriteTables(ghost b: Buffer) returns (gpu: string, mem: string)
      requires Valid() && b == Snapshot()
      ensures gpu == TableText(b, Compute) && mem == TableText(b, Memory)
    {
      gpu := PrintHeader();
      mem := PrintHeader();
      gpu, mem := WriteRows(b, gpu, mem);
      DumpWritesTable(b, Compute);
      DumpWritesTable(b, Memory);
    }

    /** `dump()`: the `_gpu` and `_mem` files, each a header line and one row per tick. */
    method Dump() returns (gpuFile: CsvFile, memFile: CsvFile)
      requires Valid()
      ensures gpuFile == CsvFile(fname + "_gpu.csv", TableText(Snapshot(), Compute))
      ensures memFile == CsvFile(fname + "_mem.csv", TableText(Snapshot(), Memory))
    {
      var gpu, mem := WriteTables(Snapshot());
      gpuFile := CsvFile(fname + "_gpu.csv", gpu);
      memFile := CsvFile(fname + "_mem.csv", mem);
    }

    /** Dump is read-only, so two dumps in a row write the same files. */
    method DumpTwice() returns (first: (CsvFile, CsvFile), second: (CsvFile, CsvFile))
      requires Valid()
      ensures first == second
    {
      var g1, m1 := Dump();
      var g2, m2 := Dump();
      first, second := (g1, m1), (g2, m2);
    }
  }
}
