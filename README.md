# libstatus GPU collector, modelled in Dafny

libstatus samples the utilization of NVIDIA MIG devices through NVML. Its
`GPUSystem` class (system.cpp) does three things:

- **Discovery.** The constructor walks every GPU and, on each, the MIG slots
  `0 .. max_mig_device_count-1`. It stops at the first slot that NVML does not
  resolve, and opens one `GPUDevice` per resolved slot, GPU-major and slot-minor.
- **Sampling.** Each iteration of `start()` pushes one timestamp and then calls
  `query()` on every device in index order, so each device's history gains one
  reading.
- **Dumping.** `dump()` writes two CSV files, `<fname>_gpu.csv` (compute
  utilization) and `<fname>_mem.csv` (memory utilization). Each has the header
  `timestamp,device_0,...,device_{n-1}` and one row `stamp,v_0,...,v_{n-1}` per
  tick. Every line ends with LF.

The model has five modules:

- `Wrappers`: `Option` and `Result`.
- `Csv`: the text layer.
  - Decimal rendering of integers, as `operator<<` writes them.
  - Joining fields with `,` and ending lines with LF.
  - The reading side (`Split`, `Lines`, `ParseNat`, `ParseInt`), so that lemmas
    can say what a reader of the files gets back.
- `Discovery`: the discovery loop as a pure specification.
  - NVML's answers are input data (`GpuReport`): the MIG-mode query, the
    max-count query, and one answer per slot.
  - The constructor's `assert`s become a `Failure` outcome.
- `Tables`: the sample buffer as a value (`Buffer`) and the specification of a
  tick and of the two tables.
- `Collector`: the imperative model.
  - `GpuDevice` is a class with an append-only `history`.
  - `GpuSystem` is a class whose constructor runs the nested discovery loops, whose
    `Tick`/`Start` append in place, and whose `PrintHeader`/`Dump` build the two
    texts with loops.
  - Each of these is proved against the `Discovery` and `Tables` specifications.

## Model

| member | source | states |
|---|---|---|
| Csv.NatToStringRoundTrip | system.cpp:119-122 | reading a written unsigned reading back as decimal gives the same number |
| Csv.IntToStringRoundTrip | system.cpp:116-117 | reading a written timestamp back, including a negative one, gives the same number |
| Csv.NatToString | system.cpp:104 | a device index is written as a non-empty run of decimal digits with no leading zero |
| Csv.IntToString | system.cpp:116-117 | a timestamp is written as decimal digits, with a leading minus sign exactly when it is negative |
| Csv.JoinSnoc | system.cpp:120-121 | writing `,` and one more field extends the comma-joined text of the fields before it |
| Csv.SplitJoin | system.cpp:115-124 | splitting a comma-joined line at `,` gives back its fields, as long as no field contains a comma |
| Csv.JoinFree | system.cpp:115-124 | a joined line contains LF only if one of its fields does |
| Csv.SplitUnlines | system.cpp:123-124 | splitting LF-terminated lines at LF gives the lines followed by an empty remainder |
| Csv.LinesUnlines | system.cpp:123-124 | reading the lines of a file made of LF-terminated lines gives back exactly those lines |
| Csv.UnlinesSnoc | system.cpp:123-124 | one more terminated line appends that line and LF to the text |
| Discovery.ResolvedFrom | system.cpp:40-53 | the slot loop from slot `k` ends at `max` or at the first unresolved slot, and every slot before the end resolved |
| Discovery.ResolvedPrefix | system.cpp:40-53 | the slots the loop visits are the longest run of resolved slots from 0, capped at the max MIG device count |
| Discovery.ResolvedPrefixUnique | system.cpp:40-53 | any stopping point with those properties is that prefix |
| Discovery.ScanSlots | system.cpp:40-64 | definition of the slot loop from slot `k`: stop at `max` or at the first slot NVML does not resolve; abort on a resolved handle whose MIG check fails or is false (lines 56-58); otherwise one device per slot in slot order. Its properties are stated by `Discovery.ScanSlotsSpec` |
| Discovery.DiscoverGpu | system.cpp:32-64 | definition of one GPU's discovery: abort when the MIG-mode query fails or MIG is not enabled, or when the max-count query fails; otherwise the slot loop up to the max count. Its properties are stated by `Discovery.DiscoverGpuSpec` |
| Discovery.Discover | system.cpp:16-69 | definition of the whole discovery: GPUs in index order, each GPU's devices appended after the earlier ones, the first abort ending it. Its properties are stated by `Discovery.DiscoverSpec`, `Discovery.DiscoverExtends`, `Discovery.DiscoverNext`, `Discovery.FailureSticks` and `Discovery.NotMigModeAborts` |
| Discovery.ScanSlotsSpec | system.cpp:40-64 | the slot loop succeeds exactly when every resolved slot passes the MIG-handle check; it then yields one device per resolved slot, in slot order |
| Discovery.DiscoverGpuSpec | system.cpp:32-64 | one GPU succeeds exactly when MIG mode is enabled, the max count query succeeds and every resolved slot is a MIG handle; it then yields the devices of its resolved prefix (discovery count) |
| Discovery.DiscoverExtends | system.cpp:16-64 | the devices of the first `g` GPUs are a prefix of the final list; later GPUs never reorder or remove earlier entries |
| Discovery.DiscoverNext | system.cpp:16-64 | handling GPU `g` appends its devices after those of the GPUs before it |
| Discovery.FailureSticks | system.cpp:33-58 | once a GPU aborts the process, discovery as a whole aborts |
| Discovery.NotMigModeAborts | system.cpp:32-34 | a GPU that is not in MIG mode aborts discovery, whatever the other GPUs report |
| Discovery.DiscoverSpec | system.cpp:16-69 | a successful discovery holds the sum of the per-GPU resolved prefixes; its entries are strictly GPU-major then slot-minor; each entry is the resolved handle of its GPU's slot |
| Tables.AppendTick | system.cpp:83-86 | one tick adds exactly one timestamp and one reading per device, leaves earlier samples unchanged, and keeps an aligned buffer aligned |
| Tables.AppendTicks | system.cpp:82-92 | a run of ticks keeps an aligned buffer aligned and keeps the device count |
| Tables.AppendTicksSpec | system.cpp:82-92 | a run of ticks appends its stamps to the timestamps, and to each device's history that device's reading of every tick, in order |
| Tables.HeaderPrefix | system.cpp:102-106 | definition of the header text after `i` turns of `print_header`'s loop: `timestamp` and then `,device_k` for each `k` below `i`. `Tables.HeaderPrefixJoin` ties it to the header fields |
| Tables.TablePrefix | system.cpp:112-124 | definition of a file's text after the header and `i` rows, each ended by LF. `Tables.TablePrefixLines` and `Tables.DumpWritesTable` tie it to the table text |
| Tables.RowPrefix | system.cpp:116-122 | definition of a file's text part-way through row `i`: the stamp, then `,` and the reading of each of the first `j` devices. `Tables.RowPrefixJoin` ties it to the row fields |
| Tables.HeaderPrefixJoin | system.cpp:102-106 | writing `timestamp` and then `,device_i` for `i` below `k` produces the first `k+1` header fields joined by commas |
| Tables.RowPrefixJoin | system.cpp:116-122 | writing the stamp and then `,` and a reading per device produces the earlier text followed by the row fields joined by commas |
| Tables.RowPrefixFull | system.cpp:116-122 | a completed row is all of its fields joined by commas |
| Tables.TableLineRow | system.cpp:115-124 | line `i+1` of a table is row `i` |
| Tables.TablePrefixHeader | system.cpp:112-113 | the dump's first line is the table's header line |
| Tables.TablePrefixStep | system.cpp:115-124 | each completed row adds the next table line and LF |
| Tables.TablePrefixLines | system.cpp:112-124 | after the header and `i` rows, the text is the first `i+1` lines of the table |
| Tables.DumpWritesTable | system.cpp:112-125 | the whole dump loop writes exactly the table text |
| Tables.HeaderFieldsFree | system.cpp:102-106 | the header has `n+1` fields, none of which contains a comma or LF |
| Tables.RowFieldsFree | system.cpp:115-122 | a row has `n+1` fields, none of which contains a comma or LF |
| Tables.NumeralsAreFree | system.cpp:116-121 | decimal numbers contain no comma and no LF |
| Tables.TableShape | system.cpp:112-125 | each table has exactly one line per tick plus the header; the header splits into `timestamp,device_0..device_{n-1}`; every data line splits into exactly `n+1` fields, the row's fields |
| Tables.TableCell | system.cpp:115-121 | field 0 of row `i` reads back as `timestamps[i]`; field `j+1` reads back as device `j`'s i-th `.gpu` (in `_gpu`) or `.memory` (in `_mem`) |
| Tables.SameHeader | system.cpp:112-113 | both files start with the same header line |
| Tables.RowsAfterTick | system.cpp:83-86 | a tick does not change the row of any earlier tick |
| Tables.LinesAfterTick | system.cpp:83-86 | a tick adds exactly one line to each table and changes no earlier line |
| Tables.TableAfterTick | system.cpp:115-125 | dumping after one more tick writes the earlier text unchanged, followed by the new row |
| Collector.GpuDevice.constructor | system.cpp:61 | `new GPUDevice(mig_device)` wraps the given handle and starts with an empty history |
| Collector.GpuDevice.GetUtilization | system.cpp:119 | `get_utilization(i)` is the device's i-th recorded reading; only defined below the history length, which `Collector.GpuSystem.Valid` guarantees for every `i` below the number of timestamps |
| Collector.GpuDevice.Query | system.cpp:86 | `query()` appends exactly one reading to the device's history |
| Collector.GpuSystem.constructor | system.cpp:16-69 | the device list is the result of `Discovery.Discover` on the NVML answers: same count and same handles in the same order; every device is new with an empty history; `num_devices` is the device count; no timestamp is recorded yet |
| Collector.GpuSystem.OpenMigDevices | system.cpp:40-64 | the slot loop of one GPU opens exactly the resolved prefix, one new device per slot in slot order, with the slot's handle |
| Collector.GpuSystem.Tick | system.cpp:83-92 | one tick appends the stamp and, to device `j`, reading `j`, leaving every device aligned with the timestamps; the new buffer is `Tables.AppendTick` of the old one |
| Collector.GpuSystem.Start | system.cpp:80-95 | a finite run of ticks keeps the collector aligned and leaves the buffer equal to `Tables.AppendTicks` of the old one |
| Collector.GpuSystem.PrintHeader | system.cpp:102-106 | the header text is `timestamp`, then `,device_i` for each device index in order, then LF |
| Collector.GpuSystem.WriteRow | system.cpp:116-124 | the row loop body writes the table text of the next row to both files |
| Collector.GpuSystem.WriteRows | system.cpp:115-125 | the row loop writes every row, in tick order, to both files |
| Collector.GpuSystem.WriteTables | system.cpp:112-125 | the two texts are exactly the `_gpu` and `_mem` tables of the buffer |
| Collector.GpuSystem.Dump | system.cpp:108-128 | the files are named `fname + "_gpu.csv"` and `fname + "_mem.csv"` and hold the two tables of the current buffer; dump changes nothing |
| Collector.GpuSystem.DumpTwice | system.cpp:108-128 | dump is read-only, so two consecutive dumps write identical files |

## Left out

- NVML initialisation and shutdown, the GPU count, the per-GPU handle and name queries (system.cpp:10-13, 28-29, 77): these calls go through `NVML_RT_CALL`, which is defined in `system.h`. `system.h` is not part of this model. The calls are taken as successful. The GPU count is the length of the report list, and a GPU's handle matters only through its report.
- The `pending_mode` output of `nvmlDeviceGetMigMode` (system.cpp:32) is never read by the source and is not modelled.
- Collector.GpuSystem.constructor: an `assert` that fails aborts the process. The model turns that into the precondition that `Discovery.Discover` succeeds. `Discovery` models the abort itself as a `Failure` naming the GPU and slot. A build with `NDEBUG`, which would skip the asserts, is not modelled.
- The `loop` flag, `stop()`, the 1 ms and 2 s sleeps and the cross-thread termination (system.cpp:81-82, 93, 97-100): `Start` runs a caller-chosen finite sequence of ticks instead.
- The clock (system.cpp:83): timestamps are inputs to `Tick` and `Start`. Nothing is assumed about their order.
- Device readings: `GPUDevice` is declared in `system.h`, which is not part of this model. `Query` takes the reading as a parameter. Its append-one contract and `get_utilization(i)` returning the i-th reading are inferred from how `dump` indexes the history.
- The `std::cout` debug output (system.cpp:30, 38, 60, 66, 68) has no effect on the model.
- `std::ofstream` opening and closing (system.cpp:109-110, 126-127): a file is modelled as its name and the whole text written to it. Failing streams are not modelled.
- The destructor's `delete`s (system.cpp:73-78): memory management is not modelled.
- Integer widths: timestamps are unbounded `int` (a `std::time_t`) and readings are `nat` (`unsigned int`). The `int` loop counters compared with `unsigned` bounds are not width-limited either. The collector does no arithmetic on these values, so this changes only which values can occur.
- The files end lines with LF, not the CRLF that section 2 of RFC 4180 specifies. The model follows the source.
- Csv.Split: the lemmas do not state that no part contains the separator in general. The table lemmas get that fact for the dumped files from `SplitJoin` and the separator-free fields.
