/**
 The Windows display-configuration interface as the HDR probe sees it.

 The three user32 procedures (GetDisplayConfigBufferSizes, QueryDisplayConfig
 and DisplayConfigGetDeviceInfo) are foreign calls. They are replaced here by
 oracles: a scripted reply per retry attempt and a reply function for
 per-target device-info requests. Only the fields the probe reads or passes on
 are kept: the target's adapter identifier and target id of a path, and the
 `Value` bit word of the advanced-colour reply.
 */
module DisplayConfig {

  type uint32 = x: int | 0 <= x < 0x1_0000_0000
  type int32 = x: int | -0x8000_0000 <= x < 0x8000_0000

  /** Win32 status as returned in the call's first result; 0 means success. */
  type Status = nat

  const ErrorSuccess: Status := 0
  /** ERROR_INSUFFICIENT_BUFFER: the topology grew between the size query and the config query. */
  const ErrorInsufficientBuffer: Status := 122
  /** ERROR_GEN_FAILURE (windows.ERROR_GEN_FAILURE): no target could be read. */
  const ErrorGenFailure: Status := 31

  /** QDC_ONLY_ACTIVE_PATHS: the only topology filter the probe ever passes. */
  const QdcOnlyActivePaths: uint32 := 0x2
  /** DISPLAYCONFIG_DEVICE_INFO_GET_ADVANCED_COLOR_INFO. */
  const GetAdvancedColorInfo: uint32 := 9

  /** Number of attempts the retry loop may make. */
  const MaxRetries: nat := 3

  /** A locally unique adapter identifier; an opaque token, only ever compared. */
  datatype Luid = Luid(lowPart: uint32, highPart: int32)

  /** One active display path: the source end and the target end. */
  datatype DisplayPath = DisplayPath(
    sourceAdapter: Luid, sourceId: uint32,
    targetAdapter: Luid, targetId: uint32)

  /** The zero value of a path record, which fills an allocated path buffer before the OS writes into it. */
  const ZeroPath := DisplayPath(Luid(0, 0), 0, Luid(0, 0), 0)

  /** The request header of one DisplayConfigGetDeviceInfo call. */
  datatype DeviceInfoRequest = DeviceInfoRequest(infoType: uint32, adapter: Luid, id: uint32)

  /** The OS reply to one device-info request: status and the advanced-colour `Value` word. */
  datatype TargetReply = TargetReply(status: Status, value: bv32)

  /**
   The advanced-colour word packs four facets: bit 0 advanced colour supported,
   bit 1 advanced colour enabled, bit 2 wide colour enforced, bit 3 advanced
   colour force disabled; the rest is reserved. The probe reads only bit 1.
   */
  predicate AdvancedColorEnabled(value: bv32) { value & 0x2 != 0 }

  /** Flipping any bits other than bit 1 leaves the HDR flag as it was. */
  lemma EnabledIgnoresOtherFacets(value: bv32, mask: bv32)
    requires mask & 0x2 == 0
    ensures AdvancedColorEnabled(value ^ mask) == AdvancedColorEnabled(value)
  {
  }

  /** Reply of GetDisplayConfigBufferSizes: status and the path and mode counts it reports. */
  datatype BufferSizesReply = BufferSizesReply(status: Status, numPaths: uint32, numModes: uint32)

  /**
   Reply of QueryDisplayConfig: status, the path count it writes back into the
   in/out count argument, and the path records it writes from the start of the
   caller's path buffer.
   */
  datatype QueryConfigReply = QueryConfigReply(status: Status, filled: uint32, records: seq<DisplayPath>)

  /** What the OS answers to the two calls of one retry attempt. */
  datatype AttemptReplies = AttemptReplies(sizes: BufferSizesReply, config: QueryConfigReply)

  /** The mode-info buffer pointer handed to QueryDisplayConfig. */
  datatype ModeBuffer = NilBuffer | ModeArray(length: nat)

  /** A display-configuration call as issued by the probe, with the arguments that matter. */
  datatype DisplayCall =
    | BufferSizesCall(flags: uint32)
    | QueryConfigCall(flags: uint32, pathCapacity: nat, modeCapacity: nat, modeBuffer: ModeBuffer)

  /** The three procedures the probe resolves before querying anything. */
  datatype Proc = GetDisplayConfigBufferSizes | QueryDisplayConfig | DisplayConfigGetDeviceInfo

  /** Errors the probe returns: a procedure that did not resolve, or a Win32 errno. */
  datatype Error = ProcNotFound(proc: Proc) | Errno(code: Status)

  datatype Result<T> = Success(value: T) | Failure(error: Error)

  datatype Option<T> = None | Some(value: T)

  /**
   The Win32 contract of QueryDisplayConfig: on success it never reports more
   paths filled than the capacity it was handed (it fails with
   ERROR_INSUFFICIENT_BUFFER instead).
   */
  predicate HonestAttempt(a: AttemptReplies) {
    a.config.status == ErrorSuccess ==> a.config.filled <= a.sizes.numPaths
  }

  /** Every attempt the retry loop can reach is answered honestly. */
  ghost predicate HonestOs(os: nat -> AttemptReplies) {
    forall k: nat :: k < MaxRetries ==> HonestAttempt(os(k))
  }
}
