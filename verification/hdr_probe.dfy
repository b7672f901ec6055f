/**
 IsHDREnabled: is HDR (advanced colour) active on any display?

 The probe first checks that the three display-configuration procedures
 resolve, then queries the active paths (with retry), then asks each path's
 target for its advanced-colour information in path order. Targets that
 cannot be read are skipped; the first readable target with the enabled bit
 set ends the scan with HDR on. A scan that could read no target at all is an
 error, distinct from a scan that read targets and found HDR off.
 */
module HdrProbe {
  import opened DisplayConfig
  import QueryRetry

  /** What the probe concludes; HDR on is never accompanied by an error. */
  datatype ProbeOutcome = HdrOn | HdrOff | Failed(error: Error)

  /** `IsHDREnabled`'s `(bool, error)` return pair. */
  datatype ProbeReply = ProbeReply(enabled: bool, err: Option<Error>)

  function ToReply(o: ProbeOutcome): (r: ProbeReply)
    ensures r.enabled <==> o.HdrOn?
    ensures r.err.Some? <==> o.Failed?
    ensures r.err.Some? ==> r.err.value == o.error
  {
    match o
    case HdrOn => ProbeReply(true, None)
    case HdrOff => ProbeReply(false, None)
    case Failed(e) => ProbeReply(false, Some(e))
  }

  /** Whether each of the three procedures resolved in the running system. */
  datatype ProcAvailability = ProcAvailability(bufferSizes: bool, queryConfig: bool, deviceInfo: bool)

  predicate AllResolve(procs: ProcAvailability) {
    procs.bufferSizes && procs.queryConfig && procs.deviceInfo
  }

  /** The OS as the probe sees it: which procedures resolve, the per-attempt replies, the per-target replies. */
  datatype DisplaySystem = DisplaySystem(
    procs: ProcAvailability,
    os: nat -> AttemptReplies,
    device: DeviceInfoRequest -> TargetReply)

  /** The advanced-colour request for one path: the path's target adapter and target id, info type 9. */
  function AdvancedColorRequest(p: DisplayPath): DeviceInfoRequest {
    DeviceInfoRequest(GetAdvancedColorInfo, p.targetAdapter, p.targetId)
  }

  /** The target of `p` answers its advanced-colour request. */
  predicate Readable(device: DeviceInfoRequest -> TargetReply, p: DisplayPath) {
    device(AdvancedColorRequest(p)).status == ErrorSuccess
  }

  /** The target of `p` answers and reports advanced colour enabled. */
  predicate ReportsHdr(device: DeviceInfoRequest -> TargetReply, p: DisplayPath) {
    Readable(device, p) && AdvancedColorEnabled(device(AdvancedColorRequest(p)).value)
  }

  /** A scan either finds an enabled target or runs through all paths, counting the targets it could read. */
  datatype ScanVerdict = Found | Exhausted(successes: nat)

  datatype Scan = Scan(verdict: ScanVerdict, requests: seq<DeviceInfoRequest>)

  /** The per-target loop: every request issued, in order, and where it stopped. */
  function ScanTargets(paths: seq<DisplayPath>, device: DeviceInfoRequest -> TargetReply): (s: Scan)
    ensures |s.requests| <= |paths|
    ensures forall i :: 0 <= i < |s.requests| ==> s.requests[i] == AdvancedColorRequest(paths[i])
    ensures s.verdict.Exhausted? ==> |s.requests| == |paths| && s.verdict.successes <= |paths|
    ensures s.verdict.Found? ==> 0 < |s.requests| && ReportsHdr(device, paths[|s.requests| - 1])
  {
    if |paths| == 0 then Scan(Exhausted(0), [])
    else
      var request := AdvancedColorRequest(paths[0]);
      var reply := device(request);
      if reply.status != ErrorSuccess then
        var rest := ScanTargets(paths[1..], device);
        Scan(rest.verdict, [request] + rest.requests)
      else if AdvancedColorEnabled(reply.value) then
        Scan(Found, [request])
      else
        var rest := ScanTargets(paths[1..], device);
        var verdict := if rest.verdict.Found? then Found else Exhausted(rest.verdict.successes + 1);
        Scan(verdict, [request] + rest.requests)
  }

  /** The number of paths whose target answers. */
  function CountReadable(device: DeviceInfoRequest -> TargetReply, paths: seq<DisplayPath>): nat {
    if |paths| == 0 then 0
    else (if Readable(device, paths[0]) then 1 else 0) + CountReadable(device, paths[1..])
  }

  lemma {:induction false} CountReadableZero(device: DeviceInfoRequest -> TargetReply, paths: seq<DisplayPath>)
    ensures CountReadable(device, paths) == 0 <==> forall i :: 0 <= i < |paths| ==> !Readable(device, paths[i])
  {
    if |paths| > 0 {
      CountReadableZero(device, paths[1..]);
      assert forall i :: 1 <= i < |paths| ==> paths[i] == paths[1..][i - 1];
    }
  }

  /** The scan finds HDR exactly when some path's target reports it. */
  lemma {:induction false} ScanFindsIff(paths: seq<DisplayPath>, device: DeviceInfoRequest -> TargetReply)
    ensures ScanTargets(paths, device).verdict.Found? <==> exists i :: 0 <= i < |paths| && ReportsHdr(device, paths[i])
  {
    if |paths| > 0 {
      ScanFindsIff(paths[1..], device);
      assert forall i :: 1 <= i < |paths| ==> paths[i] == paths[1..][i - 1];
      if exists i :: 1 <= i < |paths| && ReportsHdr(device, paths[i]) {
        var i :| 1 <= i < |paths| && ReportsHdr(device, paths[i]);
        assert ReportsHdr(device, paths[1..][i - 1]);
      }
    }
  }

  /** When the scan finds HDR, it stopped at the first enabled target: no earlier target reports HDR, no later one was asked. */
  lemma {:induction false} ScanStopsAtFirstHit(paths: seq<DisplayPath>, device: DeviceInfoRequest -> TargetReply)
    requires ScanTargets(paths, device).verdict.Found?
    ensures forall j :: 0 <= j < |ScanTargets(paths, device).requests| - 1 ==> !ReportsHdr(device, paths[j])
  {
    if !ReportsHdr(device, paths[0]) {
      ScanStopsAtFirstHit(paths[1..], device);
      var s := ScanTargets(paths, device);
      var rest := ScanTargets(paths[1..], device);
      assert |s.requests| == 1 + |rest.requests|;
      forall j | 1 <= j < |s.requests| - 1
        ensures !ReportsHdr(device, paths[j])
      {
        assert paths[j] == paths[1..][j - 1];
      }
    }
  }

  /** A scan that runs through all paths has read exactly the readable targets. */
  lemma {:induction false} ScanCountsReadable(paths: seq<DisplayPath>, device: DeviceInfoRequest -> TargetReply)
    requires ScanTargets(paths, device).verdict.Exhausted?
    ensures ScanTargets(paths, device).verdict.successes == CountReadable(device, paths)
  {
    if |paths| > 0 {
      ScanCountsReadable(paths[1..], device);
    }
  }

  /** Only the status and bit 1 of each reply matter to the scan. */
  lemma {:induction false} ScanIgnoresOtherBits(
    paths: seq<DisplayPath>, d1: DeviceInfoRequest -> TargetReply, d2: DeviceInfoRequest -> TargetReply)
    requires forall q :: d1(q).status == d2(q).status
    requires forall q :: AdvancedColorEnabled(d1(q).value) == AdvancedColorEnabled(d2(q).value)
    ensures ScanTargets(paths, d1) == ScanTargets(paths, d2)
  {
    if |paths| > 0 {
      ScanIgnoresOtherBits(paths[1..], d1, d2);
    }
  }

  /** The outcome of a completed scan over a non-empty path list. */
  function Classify(v: ScanVerdict): ProbeOutcome {
    match v
    case Found => HdrOn
    case Exhausted(0) => Failed(Errno(ErrorGenFailure))
    case Exhausted(_) => HdrOff
  }

  /** Everything one probe did: the outcome, the display calls and the device-info requests issued. */
  datatype ProbeRun = ProbeRun(outcome: ProbeOutcome, displayCalls: seq<DisplayCall>, requests: seq<DeviceInfoRequest>)

  /**
   IsHDREnabled on a Windows system. Device-info requests are issued only once
   all three procedures resolved and always ask for advanced-colour info; HDR
   on means the last target asked answered with bit 1 set; an errno returned
   is never 0.
   */
  function IsHdrEnabled(sys: DisplaySystem): (r: ProbeRun)
    requires HonestOs(sys.os)
    ensures !AllResolve(sys.procs) ==> r.displayCalls == [] && r.requests == [] && r.outcome.Failed?
    ensures forall i :: 0 <= i < |r.requests| ==> r.requests[i].infoType == GetAdvancedColorInfo
    ensures r.outcome.HdrOn? ==>
      && 0 < |r.requests|
      && sys.device(r.requests[|r.requests| - 1]).status == ErrorSuccess
      && AdvancedColorEnabled(sys.device(r.requests[|r.requests| - 1]).value)
    ensures r.outcome.Failed? && r.outcome.error.Errno? ==> r.outcome.error.code != ErrorSuccess
  {
    if !sys.procs.bufferSizes then ProbeRun(Failed(ProcNotFound(GetDisplayConfigBufferSizes)), [], [])
    else if !sys.procs.queryConfig then ProbeRun(Failed(ProcNotFound(QueryDisplayConfig)), [], [])
    else if !sys.procs.deviceInfo then ProbeRun(Failed(ProcNotFound(DisplayConfigGetDeviceInfo)), [], [])
    else
      var q := QueryRetry.Query(sys.os);
      match q.result
      case Failure(e) => ProbeRun(Failed(e), q.calls, [])
      case Success(paths) =>
        if |paths| == 0 then ProbeRun(HdrOff, q.calls, [])
        else
          var s := ScanTargets(paths, sys.device);
          ProbeRun(Classify(s.verdict), q.calls, s.requests)
  }

  /** IsHDREnabled on platforms without the display-configuration interface: never HDR, never an error. */
  function IsHdrEnabledStub(): (o: ProbeOutcome)
    ensures !ToReply(o).enabled && ToReply(o).err.None?
  {
    HdrOff
  }

  /**
   A procedure that does not resolve is reported (the first missing one, in
   the order size query, config query, device-info query) and nothing is
   queried.
   */
  lemma MissingProcedureShortCircuits(sys: DisplaySystem)
    requires HonestOs(sys.os)
    requires !AllResolve(sys.procs)
    ensures IsHdrEnabled(sys).displayCalls == [] && IsHdrEnabled(sys).requests == []
    ensures !sys.procs.bufferSizes ==>
      IsHdrEnabled(sys).outcome == Failed(ProcNotFound(GetDisplayConfigBufferSizes))
    ensures sys.procs.bufferSizes && !sys.procs.queryConfig ==>
      IsHdrEnabled(sys).outcome == Failed(ProcNotFound(QueryDisplayConfig))
    ensures sys.procs.bufferSizes && sys.procs.queryConfig ==>
      IsHdrEnabled(sys).outcome == Failed(ProcNotFound(DisplayConfigGetDeviceInfo))
  {
  }

  /** A failed display query is the probe's error, and no target is asked. */
  lemma QueryFailureIsProbeFailure(sys: DisplaySystem)
    requires HonestOs(sys.os) && AllResolve(sys.procs)
    requires QueryRetry.Query(sys.os).result.Failure?
    ensures IsHdrEnabled(sys).outcome == Failed(QueryRetry.Query(sys.os).result.error)
    ensures IsHdrEnabled(sys).requests == []
  {
  }

  /**
   An empty path list means HDR off without error, and no target is asked,
   whether the size query reported no paths or the config query filled none.
   */
  lemma NoActivePathsIsHdrOff(sys: DisplaySystem)
    requires HonestOs(sys.os) && AllResolve(sys.procs)
    requires QueryRetry.Query(sys.os).result == Success([])
    ensures IsHdrEnabled(sys).outcome == HdrOff
    ensures IsHdrEnabled(sys).requests == []
  {
  }

  /** A size query reporting zero paths (after any number of retries) leads to HDR off without error. */
  lemma ZeroPathCountIsHdrOff(sys: DisplaySystem, s: nat)
    requires HonestOs(sys.os) && AllResolve(sys.procs)
    requires s < MaxRetries
    requires forall j :: 0 <= j < s ==> QueryRetry.TooSmall(sys.os(j))
    requires sys.os(s).sizes.status == ErrorSuccess && sys.os(s).sizes.numPaths == 0
    ensures IsHdrEnabled(sys).outcome == HdrOff
    ensures IsHdrEnabled(sys).requests == []
  {
    QueryRetry.ZeroPathsIsEmptySuccess(sys.os, s);
    NoActivePathsIsHdrOff(sys);
  }

  /** A config query that succeeds but fills no path leads to HDR off without error. */
  lemma ZeroFilledIsHdrOff(sys: DisplaySystem, s: nat)
    requires HonestOs(sys.os) && AllResolve(sys.procs)
    requires s < MaxRetries
    requires forall j :: 0 <= j < s ==> QueryRetry.TooSmall(sys.os(j))
    requires sys.os(s).sizes.status == ErrorSuccess && sys.os(s).sizes.numPaths > 0
    requires sys.os(s).config.status == ErrorSuccess && sys.os(s).config.filled == 0
    ensures IsHdrEnabled(sys).outcome == HdrOff
    ensures IsHdrEnabled(sys).requests == []
  {
    QueryRetry.ConfigQuerySuccessTrims(sys.os, s);
    NoActivePathsIsHdrOff(sys);
  }

  /** With the active paths in hand, the probe reports HDR on exactly when some path's target reports it. */
  lemma HdrOnIffSomeTargetEnabled(sys: DisplaySystem)
    requires HonestOs(sys.os) && AllResolve(sys.procs)
    requires QueryRetry.Query(sys.os).result.Success?
    ensures var paths := QueryRetry.Query(sys.os).result.value;
      IsHdrEnabled(sys).outcome == HdrOn <==> exists i :: 0 <= i < |paths| && ReportsHdr(sys.device, paths[i])
  {
    var paths := QueryRetry.Query(sys.os).result.value;
    ScanFindsIff(paths, sys.device);
  }

  /**
   When the probe reports HDR on, the requests went to the paths' targets in
   order, up to and including the first enabled one, and to no later target.
   */
  lemma FirstEnabledTargetEndsScan(sys: DisplaySystem)
    requires HonestOs(sys.os) && AllResolve(sys.procs)
    requires IsHdrEnabled(sys).outcome == HdrOn
    ensures QueryRetry.Query(sys.os).result.Success?
    ensures var paths := QueryRetry.Query(sys.os).result.value;
      var requests := IsHdrEnabled(sys).requests;
      && 0 < |requests| <= |paths|
      && ReportsHdr(sys.device, paths[|requests| - 1])
      && (forall j :: 0 <= j < |requests| - 1 ==> !ReportsHdr(sys.device, paths[j]))
      && (forall j :: 0 <= j < |requests| ==> requests[j] == AdvancedColorRequest(paths[j]))
  {
    HdrOnMeansScanFound(sys);
    var paths := QueryRetry.Query(sys.os).result.value;
    ScanStopsAtFirstHit(paths, sys.device);
  }

  lemma HdrOnMeansScanFound(sys: DisplaySystem)
    requires HonestOs(sys.os) && AllResolve(sys.procs)
    requires IsHdrEnabled(sys).outcome == HdrOn
    ensures QueryRetry.Query(sys.os).result.Success?
    ensures |QueryRetry.Query(sys.os).result.value| > 0
    ensures ScanTargets(QueryRetry.Query(sys.os).result.value, sys.device).verdict.Found?
  {
  }

  /**
   With a non-empty path list, the probe fails with ERROR_GEN_FAILURE exactly
   when no target could be read, and reports HDR off exactly when some target
   was read and none of them reports HDR.
   */
  lemma ScanOutcomeClassification(sys: DisplaySystem)
    requires HonestOs(sys.os) && AllResolve(sys.procs)
    requires QueryRetry.Query(sys.os).result.Success?
    requires |QueryRetry.Query(sys.os).result.value| > 0
    ensures var paths := QueryRetry.Query(sys.os).result.value;
      (IsHdrEnabled(sys).outcome == Failed(Errno(ErrorGenFailure)))
      <==> (forall i :: 0 <= i < |paths| ==> !Readable(sys.device, paths[i]))
    ensures var paths := QueryRetry.Query(sys.os).result.value;
      (IsHdrEnabled(sys).outcome == HdrOff)
      <==> ((exists i :: 0 <= i < |paths| && Readable(sys.device, paths[i]))
            && (forall i :: 0 <= i < |paths| ==> !ReportsHdr(sys.device, paths[i])))
  {
    var paths := QueryRetry.Query(sys.os).result.value;
    var s := ScanTargets(paths, sys.device);
    ScanFindsIff(paths, sys.device);
    CountReadableZero(sys.device, paths);
    if s.verdict.Exhausted? {
      ScanCountsReadable(paths, sys.device);
    } else {
      var i :| 0 <= i < |paths| && ReportsHdr(sys.device, paths[i]);
      assert Readable(sys.device, paths[i]);
    }
  }

  /** The reply word with the bits of `mask` flipped. */
  function FlipBits(reply: TargetReply, mask: bv32): TargetReply {
    TargetReply(reply.status, reply.value ^ mask)
  }

  /**
   Bits of the advanced-colour word other than bit 1 (supported, wide colour
   enforced, force disabled, and the reserved rest) never change what the
   probe does.
   */
  lemma ProbeIgnoresOtherColorBits(
    procs: ProcAvailability, os: nat -> AttemptReplies, device: DeviceInfoRequest -> TargetReply, mask: bv32)
    requires HonestOs(os)
    requires mask & 0x2 == 0
    ensures IsHdrEnabled(DisplaySystem(procs, os, device))
      == IsHdrEnabled(DisplaySystem(procs, os, q => FlipBits(device(q), mask)))
  {
    var flipped := q => FlipBits(device(q), mask);
    forall q
      ensures AdvancedColorEnabled(device(q).value) == AdvancedColorEnabled(flipped(q).value)
    {
      EnabledIgnoresOtherFacets(device(q).value, mask);
    }
    var paths := QueryRetry.Query(os).result;
    if paths.Success? {
      ScanIgnoresOtherBits(paths.value, device, flipped);
    }
  }
}
