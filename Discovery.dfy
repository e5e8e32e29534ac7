/**
 Device discovery of `GPUSystem`'s constructor, with the NVML library
 replaced by the answers it gives: for every physical GPU, its current MIG
 mode, its maximum MIG device count and the outcome of resolving each MIG
 slot to a handle. The constructor's `assert`s become the error outcome of
 `Discover`; a slot that fails to resolve ends that GPU's slot loop.
 */
module Discovery {
  import opened Wrappers

  /** The current MIG mode of a GPU. */
  datatype MigMode = MigDisabled | MigEnabled

  /** NVML's answer when asked for the MIG device in one slot of a GPU. */
  datatype SlotAnswer =
    | Unresolved
      // the handle lookup returned an error
    | Resolved(handle: nat, isMigDevice: Option<bool>)
      // the handle, and the answer of the sanity check on it (None: the check itself failed)

  /** What NVML answers about one physical GPU. `slots` lists the answers for
      slots 0, 1, ...; a slot past its end does not resolve. */
  datatype GpuReport = GpuReport(
    migMode: Option<MigMode>,          // None: the MIG mode query failed
    maxMigDeviceCount: Option<nat>,    // None: the maximum count query failed
    slots: seq<SlotAnswer>)

  /** One discovered MIG device: the GPU and slot it was found at, and its handle. */
  datatype MigDevice = MigDevice(gpu: nat, slot: nat, handle: nat)

  /** The conditions under which the constructor aborts. */
  datatype DiscoveryError =
    | MigModeQueryFailed(gpu: nat)
    | MigModeNotEnabled(gpu: nat)
    | MaxCountQueryFailed(gpu: nat)
    | MigCheckFailed(gpu: nat, slot: nat)
    | NotAMigDevice(gpu: nat, slot: nat)

  function SlotAt(r: GpuReport, k: nat): SlotAnswer {
    if k < |r.slots| then r.slots[k] else Unresolved
  }

  /** The slot resolved to a handle that passes the sanity check. */
  predicate IsMigHandle(a: SlotAnswer) {
    a.Resolved? && a.isMigDevice == Some(true)
  }

  /** The end of the run of resolved slots that starts at slot `k`, capped at `max`. */
  function ResolvedFrom(r: GpuReport, max: nat, k: nat): (n: nat)
    requires k <= max
    ensures k <= n <= max
    ensures forall s :: k <= s < n ==> SlotAt(r, s).Resolved?
    ensures n < max ==> SlotAt(r, n).Unresolved?
    decreases max - k
  {
    if k == max || SlotAt(r, k).Unresolved? then k else ResolvedFrom(r, max, k + 1)
  }

  /** The length of the longest prefix of slots that all resolve, capped at `max`. */
  function ResolvedPrefix(r: GpuReport, max: nat): (n: nat)
    ensures n <= max
    ensures forall s :: 0 <= s < n ==> SlotAt(r, s).Resolved?
    ensures n < max ==> SlotAt(r, n).Unresolved?
  {
    ResolvedFrom(r, max, 0)
  }

  /** The slot loop of one GPU from slot `k` on: stop at `max` or at the first
      slot that does not resolve; abort on a handle that fails the sanity check. */
  function ScanSlots(g: nat, r: GpuReport, max: nat, k: nat): Result<seq<MigDevice>, DiscoveryError>
    requires k <= max
    decreases max - k
  {
    if k == max then Success([])
    else match SlotAt(r, k)
      case Unresolved => Success([])
      case Resolved(h, check) =>
        if check.None? then Failure(MigCheckFailed(g, k))
        else if !check.value then Failure(NotAMigDevice(g, k))
        else match ScanSlots(g, r, max, k + 1)
          case Failure(e) => Failure(e)
          case Success(rest) => Success([MigDevice(g, k, h)] + rest)
  }

  /** Everything the constructor does for GPU `g`. */
  function DiscoverGpu(g: nat, r: GpuReport): Result<seq<MigDevice>, DiscoveryError> {
    if r.migMode.None? then Failure(MigModeQueryFailed(g))
    else if r.migMode.value != MigEnabled then Failure(MigModeNotEnabled(g))
    else if r.maxMigDeviceCount.None? then Failure(MaxCountQueryFailed(g))
    else ScanSlots(g, r, r.maxMigDeviceCount.value, 0)
  }

  /** The whole discovery, GPU by GPU in index order: the devices of each GPU
      are appended after those of the GPUs before it; the first error aborts. */
  function Discover(reports: seq<GpuReport>): Result<seq<MigDevice>, DiscoveryError> {
    if |reports| == 0 then Success([])
    else
      var g := |reports| - 1;
      match Discover(reports[..g])
      case Failure(e) => Failure(e)
      case Success(earlier) =>
        match DiscoverGpu(g, reports[g])
        case Failure(e) => Failure(e)
        case Success(more) => Success(earlier + more)
  }

  /** The devices a successful discovery of GPU `g` yields, by the declarative definition:
      one per slot of the resolved prefix, in slot order. */
  function PrefixDevices(g: nat, r: GpuReport, n: nat): (ds: seq<MigDevice>)
    requires forall s :: 0 <= s < n ==> SlotAt(r, s).Resolved?
  {
    seq(n, s requires 0 <= s < n => MigDevice(g, s, SlotAt(r, s).handle))
  }

  // ---------------------------------------------------------------------------
  // The slot loop of one GPU

  /** Any `n` that has the properties of the longest resolved prefix is that prefix. */
  lemma ResolvedPrefixUnique(r: GpuReport, max: nat, n: nat)
    requires n <= max
    requires forall s :: 0 <= s < n ==> SlotAt(r, s).Resolved?
    requires n < max ==> SlotAt(r, n).Unresolved?
    ensures n == ResolvedPrefix(r, max)
  {
  }

  /** The slot loop succeeds exactly when every handle of the resolved run passes
      the sanity check, and then it yields one device per slot of that run, in order. */
  lemma {:induction false} ScanSlotsSpec(g: nat, r: GpuReport, max: nat, k: nat)
    requires k <= max
    ensures var n := ResolvedFrom(r, max, k);
            ScanSlots(g, r, max, k).Success? <==> forall s :: k <= s < n ==> IsMigHandle(SlotAt(r, s))
    ensures var n := ResolvedFrom(r, max, k);
            ScanSlots(g, r, max, k).Success? ==>
              ScanSlots(g, r, max, k).value == seq(n - k, i requires 0 <= i < n - k => MigDevice(g, k + i, SlotAt(r, k + i).handle))
    decreases max - k
  {
    if k < max && SlotAt(r, k).Resolved? {
      ScanSlotsSpec(g, r, max, k + 1);
      var n := ResolvedFrom(r, max, k);
      assert n == ResolvedFrom(r, max, k + 1);
      if !IsMigHandle(SlotAt(r, k)) {
        assert ScanSlots(g, r, max, k).Failure?;
      }
    }
  }

  /** Discovery count and order for one GPU: it fails only on a GPU that is not
      in MIG mode, on a failed query, or on a handle of the resolved prefix that
      fails the sanity check; on success it adds one device per slot of the
      longest resolved prefix, capped at the maximum count, in slot order. */
  lemma DiscoverGpuSpec(g: nat, r: GpuReport)
    ensures DiscoverGpu(g, r).Success? <==>
      && r.migMode == Some(MigEnabled)
      && r.maxMigDeviceCount.Some?
      && forall s :: 0 <= s < ResolvedPrefix(r, r.maxMigDeviceCount.value) ==> IsMigHandle(SlotAt(r, s))
    ensures DiscoverGpu(g, r).Success? ==>
      DiscoverGpu(g, r).value == PrefixDevices(g, r, ResolvedPrefix(r, r.maxMigDeviceCount.value))
  {
    if r.migMode == Some(MigEnabled) && r.maxMigDeviceCount.Some? {
      var max := r.maxMigDeviceCount.value;
      ScanSlotsSpec(g, r, max, 0);
      var n := ResolvedPrefix(r, max);
      if DiscoverGpu(g, r).Success? {
        assert DiscoverGpu(g, r).value == PrefixDevices(g, r, n);
      }
    }
  }

  // ---------------------------------------------------------------------------
  // The loop over GPUs

  /** Discovery of the first `g` GPUs: earlier entries are never reordered or
      removed by the GPUs that follow, and an abort on an early GPU aborts the whole. */
  lemma {:induction false} DiscoverExtends(reports: seq<GpuReport>, g: nat)
    requires g <= |reports|
    requires Discover(reports).Success?
    ensures Discover(reports[..g]).Success?
    ensures Discover(reports[..g]).value <= Discover(reports).value
    decreases |reports|
  {
    if g < |reports| {
      var last := |reports| - 1;
      DiscoverExtends(reports[..last], g);
      assert reports[..last][..g] == reports[..g];
    } else {
      assert reports[..g] == reports;
    }
  }

  /** Discovery of the first `g + 1` GPUs appends GPU `g`'s devices to those of the first `g`;
      when the whole discovery succeeds, so does GPU `g`'s. */
  lemma DiscoverNext(reports: seq<GpuReport>, g: nat)
    requires g < |reports|
    requires Discover(reports).Success?
    ensures Discover(reports[..g]).Success? && DiscoverGpu(g, reports[g]).Success?
    ensures Discover(reports[..g + 1]) ==
      Success(Discover(reports[..g]).value + DiscoverGpu(g, reports[g]).value)
  {
    DiscoverExtends(reports, g + 1);
    assert reports[..g + 1][..g] == reports[..g];
    assert reports[..g + 1][g] == reports[g];
  }

  /** Once discovery of the first `g` GPUs aborts, discovery of all of them aborts. */
  lemma {:induction false} FailureSticks(reports: seq<GpuReport>, g: nat)
    requires g <= |reports|
    requires Discover(reports[..g]).Failure?
    ensures Discover(reports).Failure?
    decreases |reports|
  {
    if g < |reports| {
      var last := |reports| - 1;
      assert reports[..last][..g] == reports[..g];
      FailureSticks(reports[..last], g);
    } else {
      assert reports[..g] == reports;
    }
  }

  /** A GPU that is not in MIG mode aborts the whole discovery, whatever the other GPUs report. */
  lemma NotMigModeAborts(reports: seq<GpuReport>, g: nat)
    requires g < |reports|
    requires reports[g].migMode != Some(MigEnabled)
    ensures Discover(reports).Failure?
  {
    assert reports[..g + 1][..g] == reports[..g];
    assert DiscoverGpu(g, reports[g]).Failure?;
    FailureSticks(reports, g + 1);
  }

  /** Devices are in GPU-major, slot-minor order: strictly increasing in (gpu, slot). */
  predicate GpuMajor(ds: seq<MigDevice>) {
    forall a, b :: 0 <= a < b < |ds| ==>
      ds[a].gpu < ds[b].gpu || (ds[a].gpu == ds[b].gpu && ds[a].slot < ds[b].slot)
  }

  /** The number of devices a successful discovery of `reports` creates. */
  function TotalPrefix(reports: seq<GpuReport>): nat {
    if |reports| == 0 then 0
    else
      var r := reports[|reports| - 1];
      TotalPrefix(reports[..|reports| - 1]) +
        (if r.maxMigDeviceCount.Some? then ResolvedPrefix(r, r.maxMigDeviceCount.value) else 0)
  }

  /** A device discovered on GPU `ds.gpu` at slot `ds.slot` is that slot's resolved handle,
      and the slot lies in the GPU's resolved prefix. */
  predicate FoundIn(reports: seq<GpuReport>, d: MigDevice) {
    && d.gpu < |reports|
    && reports[d.gpu].maxMigDeviceCount.Some?
    && d.slot < ResolvedPrefix(reports[d.gpu], reports[d.gpu].maxMigDeviceCount.value)
    && SlotAt(reports[d.gpu], d.slot) == Resolved(d.handle, Some(true))
  }

  /** Discovery count and order for the whole host: a successful discovery holds
      exactly the sum over GPUs of their resolved prefixes, every entry is the
      handle of a resolved slot of its GPU, and the entries are GPU-major, slot-minor. */
  lemma {:induction false} DiscoverSpec(reports: seq<GpuReport>)
    requires Discover(reports).Success?
    ensures |Discover(reports).value| == TotalPrefix(reports)
    ensures GpuMajor(Discover(reports).value)
    ensures forall a :: 0 <= a < |Discover(reports).value| ==> FoundIn(reports, Discover(reports).value[a])
    decreases |reports|
  {
    if |reports| > 0 {
      var g := |reports| - 1;
      var init := reports[..g];
      DiscoverSpec(init);
      var earlier := Discover(init).value;
      var r := reports[g];
      DiscoverGpuSpec(g, r);
      var more := DiscoverGpu(g, r).value;
      var ds := Discover(reports).value;
      assert ds == earlier + more;
      forall a | 0 <= a < |earlier|
        ensures FoundIn(reports, ds[a]) && ds[a].gpu < g
      {
        assert FoundIn(init, earlier[a]);
      }
      forall a | |earlier| <= a < |ds|
        ensures FoundIn(reports, ds[a]) && ds[a].gpu == g && ds[a].slot == a - |earlier|
      {
        var s := a - |earlier|;
        assert more[s] == MigDevice(g, s, SlotAt(r, s).handle);
        assert IsMigHandle(SlotAt(r, s));
      }
    }
  }
}
