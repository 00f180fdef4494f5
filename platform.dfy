/** The platform boundary: what each SetupAPI entry point the core calls
    can answer. The raw system calls are not modelled; each entry point is
    an oracle whose answer is an input to the model, so every property of
    the core is proved for every answer the platform may give. Where the
    platform's own rules decide the shape of an answer (a value is copied
    only when it fits the caller's buffer), the oracle states the platform's
    situation and a function here applies those rules. */
module Platform {
  import opened Wrappers
  import opened Win32

  /** The device registry properties the core reads (SPDRP_* values). */
  datatype PropertyId =
    | DeviceDesc | HardwareIds | CompatibleIds | Service | ClassName | ClassGuidName
    | DriverRegName | ConfigFlags | Manufacturer | FriendlyName | LocationInformation
    | PhysicalDeviceObjectName | EnumeratorName | DevType | Characteristics | InstallState

  /** What SetupDiGetDeviceRegistryPropertyW finds at one call: the stored
      value with its registry type, or a failure with the error code, the
      required size and the type it reports. */
  datatype PropState =
    | Stored(dataType: nat, bytes: seq<uint8>)
    | Fails(errno: nat, reqSize: nat, dataType: nat)

  /** One property of one device, call after call: the k-th call made for
      it sees `prop(k)`. A value that changes between calls is allowed. */
  type Property = nat -> PropState

  /** The out-values of one SetupDiGetDeviceRegistryPropertyW call: the
      return value r0, the last error, the required size, the registry type,
      and the bytes copied to the front of the caller's buffer. */
  datatype PropReply = PropReply(r0: nat, errno: nat, reqSize: nat, dataType: nat, written: seq<uint8>)

  /** The platform's rule for a call with a buffer of `bufLen` bytes: a
      stored value that fits is copied and its size reported; one that does
      not fit fails with ERROR_INSUFFICIENT_BUFFER and reports the size it
      needs. */
  function RegistryPropertyReply(st: PropState, bufLen: nat): (r: PropReply)
    ensures r.r0 != 0 ==> r.reqSize == |r.written| <= bufLen
    ensures st.Stored? ==> r.reqSize == |st.bytes| && r.dataType == st.dataType
    ensures st.Stored? ==> (r.r0 != 0 <==> |st.bytes| <= bufLen)
  {
    match st
    case Stored(t, b) =>
      if |b| <= bufLen then PropReply(1, 0, |b|, t, b) else PropReply(0, 122, |b|, t, [])
    case Fails(e, n, t) => PropReply(0, e, n, t, [])
  }

  /** The out-values of one SetupDiEnumDeviceInfo call. */
  datatype EnumReply = EnumReply(r0: nat, errno: nat, info: DevInfoData)

  /** The members of one device information list: index i < |replies| is
      answered by replies[i]; every later index fails with
      ERROR_NO_MORE_ITEMS. */
  function EnumDeviceInfoReply(replies: seq<EnumReply>, index: nat): (r: EnumReply)
    ensures index >= |replies| ==> r.r0 == 0 && r.errno == ErrNoMoreItems
  {
    if index < |replies| then replies[index] else EnumReply(0, ErrNoMoreItems, DevInfoData(ZeroGuid, 0))
  }

  /** The arguments SetupDiGetClassDevsExW receives (a nil GUID pointer is
      None; an empty string is passed as a nil pointer). */
  datatype OpenArgs = OpenArgs(classGuid: Option<Guid>, enumerator: string, flags: bv32, devInfoSet: Handle, machine: string)

  /** The out-values of SetupDiGetClassDevsExW and
      SetupDiCreateDeviceInfoList: the handle (InvalidHandle on failure) and
      the last error. */
  datatype HandleReply = HandleReply(handle: Handle, errno: nat)

  /** The out-values of a call that returns a BOOL: r0 and the last error. */
  datatype BoolReply = BoolReply(r0: nat, errno: nat)

  /** What SetupDiClassGuidsFromNameExW finds for a class name: the GUIDs
      of the classes with that name, or a failure. */
  datatype GuidsState =
    | GuidsStored(guids: seq<Guid>)
    | GuidsFail(errno: nat, reqSize: nat)

  /** The out-values of one SetupDiClassGuidsFromNameExW call. */
  datatype GuidsReply = GuidsReply(r0: nat, errno: nat, reqSize: nat, written: seq<Guid>)

  /** The platform's rule for a buffer of `bufLen` GUIDs: the list is
      copied when it fits, otherwise the call fails with
      ERROR_INSUFFICIENT_BUFFER; the required count is reported either
      way. */
  function ClassGuidsReply(st: GuidsState, bufLen: nat): (r: GuidsReply)
    ensures r.r0 != 0 ==> r.reqSize == |r.written| <= bufLen
    ensures st.GuidsStored? ==> r.reqSize == |st.guids| && (r.r0 != 0 <==> |st.guids| <= bufLen)
  {
    match st
    case GuidsStored(g) =>
      if |g| <= bufLen then GuidsReply(1, 0, |g|, g) else GuidsReply(0, 122, |g|, [])
    case GuidsFail(e, n) => GuidsReply(0, e, n, [])
  }
}
