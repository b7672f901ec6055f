# HDR check: a Dafny model

The HDR check warns the automation pipeline, once per session, when HDR
(Windows "advanced colour") output is active on a display. HDR shifts
captured pixel colours and can break image recognition. This project models
the decision logic of the check and proves properties of it:

- `queryDisplayConfigWithRetry`: the two-phase query of the active display
  paths. It asks GetDisplayConfigBufferSizes for the counts, allocates the
  buffers and calls QueryDisplayConfig. It retries on
  ERROR_INSUFFICIENT_BUFFER (122), at most `maxRetries` = 3 attempts.
- `IsHDREnabled`: resolves the three user32 procedures, queries the paths,
  and asks each path's target for its advanced-colour word. The result is
  HDR on when some readable target has bit 1 (0x2) set. It is
  ERROR_GEN_FAILURE when the path list is non-empty and no target could be
  read. It is HDR off when the list is empty, or when some target was read
  and none is enabled. An unresolved procedure or a failed path query is
  returned as that error.
- `HDRChecker.OnTaskerTask`: the one-shot warning latch over the `warned`
  flag.

The Win32 calls are foreign code. They are replaced by oracles:

- `os: nat -> AttemptReplies` gives the size-query and config-query replies
  of the k-th attempt.
- `device: DeviceInfoRequest -> TargetReply` answers each per-target request
  with a status and the `Value` word.
- `ProcAvailability` says which of the three procedures resolve.

Each function returns a trace of the calls it issued, so "no query was made"
and "no later target was asked" are statements about that trace.

Files:

- `display_config.dfy` (module `DisplayConfig`): the constants, the path and
  request records, the oracle replies, the call trace and the errors.
- `query_retry.dfy` (module `QueryRetry`): the retry loop. `Query` is a
  recursive reference definition, and the method
  `QueryDisplayConfigWithRetry` is the counted loop proved equal to it.
- `hdr_probe.dfy` (module `HdrProbe`): the per-target scan, `IsHdrEnabled`,
  and the non-Windows stub.
- `checker.dfy` (module `Checker`): the latch state machine and runs of
  successive events.

Two error values are worth knowing:

- Retry exhaustion returns the errno ERROR_INSUFFICIENT_BUFFER (122). A size
  query failing with 122 returns the same value (hdr_windows.go:191, 228).
- A scan that reads no target returns ERROR_GEN_FAILURE (31)
  (hdr_windows.go:173).

The probe is a pure function of its oracles. Two probes of the same snapshot
therefore give the same outcome by construction, and no lemma is needed for
that.

## Model

| member | source | states |
|---|---|---|
| QueryRetry.RunAttempt | agent/go-service/hdrcheck/hdr_windows.go:182-225 | One attempt issues exactly one size query, first. It issues a config query only when the size query succeeded with paths, and that call asks for active paths only with a mode pointer that is nil exactly when there are no modes. It retries only on a config-query 122. Otherwise it returns an empty list for zero paths, a list of the filled count (at most the reported size) on success, or the failing call's status as a non-zero errno. |
| QueryRetry.Settle | agent/go-service/hdrcheck/hdr_windows.go:190-224 | For an attempt that does not retry: a failing size query returns its status as the errno. A zero path count returns an empty list. Otherwise the result is a success exactly when the config query returned 0, and a failure carries the config query's non-zero status. A success is no longer than the reported path count, and exactly the filled count when the size query reported paths. |
| QueryRetry.Query | agent/go-service/hdrcheck/hdr_windows.go:180-229 | The reference definition of the retrying query: between 1 and 3 attempts, a failure is always a non-zero errno, and a returned list is never longer than the path count reported by the attempt that produced it. |
| QueryRetry.QueryDisplayConfigWithRetry | agent/go-service/hdrcheck/hdr_windows.go:180-229 | The counted loop agrees with the reference definition. It makes between 1 and maxRetries attempts. A returned path list is never longer than the path count of the attempt that produced it. |
| QueryRetry.RetryBound | agent/go-service/hdrcheck/hdr_windows.go:181-228 | Between 1 and 3 attempts, with one size query each and at most one config query each. Every attempt but the last ended in ERROR_INSUFFICIENT_BUFFER. Every call asks for active paths only. Every config query follows a size query and passes a nil mode pointer exactly when the mode count is 0. A failure is always a non-zero errno. |
| QueryRetry.SettlesOnFirstNonRetryAttempt | agent/go-service/hdrcheck/hdr_windows.go:181-225 | The first attempt not ending in ERROR_INSUFFICIENT_BUFFER decides the result, and no attempt follows it. |
| QueryRetry.SizeQueryErrorIsFinal | agent/go-service/hdrcheck/hdr_windows.go:185-192 | A non-zero size-query status is returned as that errno at once. That attempt issues no config query and no further attempt is made. |
| QueryRetry.ZeroPathsIsEmptySuccess | agent/go-service/hdrcheck/hdr_windows.go:194-196 | A zero path count gives an empty list with no error and no config query. |
| QueryRetry.ConfigQueryErrorIsFinal | agent/go-service/hdrcheck/hdr_windows.go:222-224 | A config-query status other than 0 and 122 is returned as that errno without retry. |
| QueryRetry.ConfigQuerySuccessTrims | agent/go-service/hdrcheck/hdr_windows.go:199-221 | On success the list is the allocated buffer trimmed to the filled count. Its length is the filled count, which is at most the reported size. It holds the OS's records first and zero-valued records after them. |
| QueryRetry.InsufficientBufferExhaustsRetries | agent/go-service/hdrcheck/hdr_windows.go:221-228 | When every config query answers 122, exactly 3 attempts are made, each with a config query, and the result is ERROR_INSUFFICIENT_BUFFER. |
| DisplayConfig.EnabledIgnoresOtherFacets | agent/go-service/hdrcheck/hdr_windows.go:160-165 | Flipping any bit of the advanced-colour word other than bit 1 leaves the enabled test unchanged. |
| HdrProbe.ToReply | agent/go-service/hdrcheck/hdr_windows.go:117-177 | The `(bool, error)` pair is true only for HDR on, and carries an error exactly for a failure. |
| HdrProbe.ScanTargets | agent/go-service/hdrcheck/hdr_windows.go:141-169 | Request i goes to path i's target adapter and target id with info type 9. A full scan asks every path. A scan that finds HDR stops at a readable target with bit 1 set. |
| HdrProbe.ScanFindsIff | agent/go-service/hdrcheck/hdr_windows.go:151-168 | The scan finds HDR if and only if some path's target is readable and reports bit 1. |
| HdrProbe.ScanStopsAtFirstHit | agent/go-service/hdrcheck/hdr_windows.go:165-168 | A scan that finds HDR stopped at the first enabled target. No earlier target reports HDR. |
| HdrProbe.ScanIgnoresOtherBits | agent/go-service/hdrcheck/hdr_windows.go:154-168 | Two device oracles that agree on the status and on bit 1 of every reply give the same scan. |
| HdrProbe.MissingProcedureShortCircuits | agent/go-service/hdrcheck/hdr_windows.go:119-127 | If a procedure does not resolve, the first missing one is reported in source order, and no display or device query is issued. |
| HdrProbe.QueryFailureIsProbeFailure | agent/go-service/hdrcheck/hdr_windows.go:130-133 | A failed path query is the probe's error, and no target is asked. |
| HdrProbe.IsHdrEnabled | agent/go-service/hdrcheck/hdr_windows.go:117-177 | If a procedure does not resolve, nothing is queried and the result is an error. Every device-info request asks for advanced-colour info (type 9). HDR on means the last target asked answered with bit 1 set. An errno returned is never 0. |
| HdrProbe.IsHdrEnabledStub | agent/go-service/hdrcheck/hdr_other.go:7-9 | On other platforms the `(bool, error)` pair is never HDR on and never an error. |
| HdrProbe.NoActivePathsIsHdrOff | agent/go-service/hdrcheck/hdr_windows.go:135-137 | An empty path list, from either route, gives HDR off with no error, and no target is asked. |
| HdrProbe.ZeroPathCountIsHdrOff | agent/go-service/hdrcheck/hdr_windows.go:194-196 | A size query reporting zero paths, after any number of retries, gives HDR off with no error. |
| HdrProbe.ZeroFilledIsHdrOff | agent/go-service/hdrcheck/hdr_windows.go:218-220 | A config query that succeeds but fills no path gives HDR off with no error. |
| HdrProbe.HdrOnIffSomeTargetEnabled | agent/go-service/hdrcheck/hdr_windows.go:141-168 | Given the path list, the probe reports HDR on if and only if some path's target is readable and has bit 1 set. |
| HdrProbe.FirstEnabledTargetEndsScan | agent/go-service/hdrcheck/hdr_windows.go:141-168 | HDR on means the requests went to the targets in path order, up to and including the first enabled one, and to no later target. |
| HdrProbe.ScanOutcomeClassification | agent/go-service/hdrcheck/hdr_windows.go:171-176 | With a non-empty path list, the result is ERROR_GEN_FAILURE if and only if no target was readable. It is HDR off if and only if some target was readable and none reported HDR. |
| HdrProbe.ProbeIgnoresOtherColorBits | agent/go-service/hdrcheck/hdr_windows.go:160-165 | Flipping any bits other than bit 1 in every reply (supported, wide colour enforced, force disabled, reserved) leaves the probe's outcome and trace unchanged. |
| Checker.OnTaskerTask | agent/go-service/hdrcheck/checker.go:18-56 | Only a task-starting event on a not-yet-warned checker runs the probe. A probe error never changes the state. The warning is emitted if and only if a fresh checker sees HDR on without error. The state changes only through that warning, and `warned` never goes back to false. |
| Checker.Run | agent/go-service/hdrcheck/checker.go:18-56 | Successive handler invocations give one reaction per event. The checker changes only by going from not warned to warned. A checker that started warned never emits a warning. |
| Checker.FreshCheckerWarnsOnceIffTriggered | agent/go-service/hdrcheck/checker.go:10-52 | A fresh checker emits exactly one warning if some task-starting event saw HDR on without error, and none otherwise. |
| Checker.WarnedIffTriggered | agent/go-service/hdrcheck/checker.go:20-52 | After a run of events the checker is warned if and only if it started warned or some task-starting event saw HDR on without error. |
| Checker.AtMostOneWarning | agent/go-service/hdrcheck/checker.go:14-52 | A run emits at most one warning. A checker that is already warned emits none. A run emits exactly one warning if and only if the checker went from not warned to warned. |
| Checker.LatchIsMonotone | agent/go-service/hdrcheck/checker.go:51-52 | If the checker is warned after some prefix of the events, it is warned at the end. |
| Checker.StubNeverWarns | agent/go-service/hdrcheck/hdr_other.go:7-9 | With the non-Windows probe, which always answers HDR off, no run ever warns or changes the checker. |
| Checker.UnresolvedProceduresNeverWarn | agent/go-service/hdrcheck/checker.go:34-38 | When a display procedure does not resolve, the probe error is only logged and the checker never warns. |

## Left out

- DLL loading, `LazyProc.Find` and `LazyProc.Call` are foreign calls. They are replaced by the oracles described above.
- Win32 struct layouts, `unsafe.Pointer` and `unsafe.Sizeof` are left out. A path keeps only its source and target (adapter id, id) pairs, and `LUID` is an opaque pair that is only compared. The mode buffer is kept only as nil or a length, and the request's `Size` field is not modelled.
- The flag and info-type constants other than `QDC_ONLY_ACTIVE_PATHS` and info type 9 are left out because nothing uses them.
- QueryRetry.Query: if the OS reports more paths filled than the capacity it was given, the Go slice expression would panic. The model excludes this case with the precondition `HonestOs`, which states the Win32 contract that QueryDisplayConfig never does this.
- The config query's written-back mode count is left out because `queryDisplayConfigWithRetry` never reads it.
- Logging and the printed HTML warning text are presentation only. They are abstracted to the `Reaction` of each step.
- The framework's event-status codes other than task-starting are kept opaque, because the handler only tests for task-starting. The tasker and task-detail arguments are logging input only.
- Sink registration with the framework (register.go) is a foreign call and is not part of this model.
- Concurrency is left out. `warned` is read and written without synchronisation, and handler invocations are modelled as sequential.
