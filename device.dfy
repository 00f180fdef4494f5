/** A device met during a query (device.go): its property accessors, the
    driver query for its installed driver, and the removal protocol. */
module WinDevice {
  import opened Wrappers
  import opened Win32
  import opened Platform
  import SyscallProperty
  import Utf16
  import DiFlagEx

  /** A device as a query hands it out: the list handle, the record, and
      the registry properties the platform holds for it. */
  datatype Device = Device(devices: Handle, data: DevInfoData, registry: PropertyId -> Property)

  /** Sys: the list handle and the record, unchanged. */
  function Sys(device: Device): (r: (Handle, DevInfoData))
    ensures r.0 == device.devices && r.1 == device.data
  {
    (device.devices, device.data)
  }

  // ---------------------------------------------------------------------
  // Property accessors
  // ---------------------------------------------------------------------

  function StringProperty(device: Device, id: PropertyId): (string, Option<Error>) {
    SyscallProperty.GetDeviceRegistryString(device.registry(id))
  }

  function Uint32Property(device: Device, id: PropertyId): (uint32, Option<Error>) {
    SyscallProperty.GetDeviceRegistryUint32(device.registry(id))
  }

  function Description(device: Device): (string, Option<Error>) { StringProperty(device, DeviceDesc) }
  function Service(device: Device): (string, Option<Error>) { StringProperty(device, PropertyId.Service) }
  function Class(device: Device): (string, Option<Error>) { StringProperty(device, ClassName) }
  function ClassGuid(device: Device): (string, Option<Error>) { StringProperty(device, ClassGuidName) }
  function DriverRegName(device: Device): (string, Option<Error>) { StringProperty(device, PropertyId.DriverRegName) }
  function Manufacturer(device: Device): (string, Option<Error>) { StringProperty(device, PropertyId.Manufacturer) }
  function FriendlyName(device: Device): (string, Option<Error>) { StringProperty(device, PropertyId.FriendlyName) }
  function LocationInformation(device: Device): (string, Option<Error>) {
    StringProperty(device, PropertyId.LocationInformation)
  }
  function PhysicalDeviceObjectName(device: Device): (string, Option<Error>) {
    StringProperty(device, PropertyId.PhysicalDeviceObjectName)
  }
  function EnumeratorName(device: Device): (string, Option<Error>) { StringProperty(device, PropertyId.EnumeratorName) }
  function ConfigFlags(device: Device): (uint32, Option<Error>) { Uint32Property(device, PropertyId.ConfigFlags) }
  function DevType(device: Device): (uint32, Option<Error>) { Uint32Property(device, PropertyId.DevType) }
  function Characteristics(device: Device): (uint32, Option<Error>) { Uint32Property(device, PropertyId.Characteristics) }

  /** InstallState: the DWORD converted to an install state and returned
      alongside the error, so the state is 0 whenever there is an error. */
  function InstallState(device: Device): (r: (uint32, Option<Error>))
    ensures r.1.Some? ==> r.0 == 0
    ensures r.1 == SyscallProperty.GetDeviceRegistryUint32(device.registry(PropertyId.InstallState)).1
  {
    Uint32Property(device, PropertyId.InstallState)
  }

  /** The hardware IDs the HardwareID accessor returns. */
  function HardwareIds(device: Device): (seq<string>, Option<Error>) {
    SyscallProperty.GetDeviceRegistryStrings(device.registry(PropertyId.HardwareIds))
  }

  /** The compatible IDs the CompatibleID accessor returns. */
  function CompatibleIds(device: Device): (seq<string>, Option<Error>) {
    SyscallProperty.GetDeviceRegistryStrings(device.registry(PropertyId.CompatibleIds))
  }

  /** The append loop of HardwareID and CompatibleID: each fetched string
      converted to an ID, in the same order. */
  method ConvertIds(ids: seq<string>) returns (converted: seq<string>)
    ensures converted == ids
  {
    converted := [];
    var i := 0;
    while i < |ids|
      invariant i <= |ids|
      invariant converted == ids[..i]
    {
      assert ids[..i + 1] == ids[..i] + [ids[i]];
      converted := converted + [ids[i]];
      i := i + 1;
    }
  }

  /** HardwareID: nil on error; otherwise the fetched strings, each
      converted to a hardware ID, in the same order. */
  method HardwareID(device: Device) returns (hids: seq<string>, err: Option<Error>)
    ensures var fetched := HardwareIds(device);
            err == fetched.1 &&
            (err.Some? ==> hids == []) &&
            (err.None? ==> |hids| == |fetched.0| && forall i :: 0 <= i < |hids| ==> hids[i] == fetched.0[i])
  {
    var ids;
    var fetched := HardwareIds(device);
    ids, err := fetched.0, fetched.1;
    if err.Some? {
      return [], err;
    }
    hids := ConvertIds(ids);
  }

  /** CompatibleID: nil on error; otherwise the fetched strings, each
      converted to a compatible ID, in the same order. */
  method CompatibleID(device: Device) returns (cids: seq<string>, err: Option<Error>)
    ensures var fetched := CompatibleIds(device);
            err == fetched.1 &&
            (err.Some? ==> cids == []) &&
            (err.None? ==> |cids| == |fetched.0| && forall i :: 0 <= i < |cids| ==> cids[i] == fetched.0[i])
  {
    var ids;
    var fetched := CompatibleIds(device);
    ids, err := fetched.0, fetched.1;
    if err.Some? {
      return [], err;
    }
    cids := ConvertIds(ids);
  }

  /** A property that holds a stable REG_SZ value. */
  predicate HoldsString(prop: Property, s: string) {
    prop(0) == Stored(SyscallProperty.RegSz, Utf16.EncodeString(s)) && prop(1) == prop(0)
  }

  /** The string accessors read back a NUL-free string stored in their own
      property; the other properties play no part. */
  lemma StringAccessorsRoundTrip(device: Device, s: string)
    requires '\0' !in s
    ensures forall id :: HoldsString(device.registry(id), s) ==> StringProperty(device, id) == (s, None)
    ensures HoldsString(device.registry(DeviceDesc), s) ==> Description(device) == (s, None)
    ensures HoldsString(device.registry(PropertyId.Service), s) ==> Service(device) == (s, None)
    ensures HoldsString(device.registry(ClassName), s) ==> Class(device) == (s, None)
    ensures HoldsString(device.registry(ClassGuidName), s) ==> ClassGuid(device) == (s, None)
    ensures HoldsString(device.registry(PropertyId.DriverRegName), s) ==> DriverRegName(device) == (s, None)
    ensures HoldsString(device.registry(PropertyId.Manufacturer), s) ==> Manufacturer(device) == (s, None)
    ensures HoldsString(device.registry(PropertyId.FriendlyName), s) ==> FriendlyName(device) == (s, None)
    ensures HoldsString(device.registry(PropertyId.LocationInformation), s) ==> LocationInformation(device) == (s, None)
    ensures HoldsString(device.registry(PropertyId.PhysicalDeviceObjectName), s) ==>
              PhysicalDeviceObjectName(device) == (s, None)
    ensures HoldsString(device.registry(PropertyId.EnumeratorName), s) ==> EnumeratorName(device) == (s, None)
  {
    forall id | HoldsString(device.registry(id), s)
      ensures StringProperty(device, id) == (s, None)
    {
      SyscallProperty.StringRoundTrip(device.registry(id), SyscallProperty.RegSz, s);
    }
  }

  /** A property that holds x as a DWORD, in either byte order. */
  predicate HoldsUint32(prop: Property, x: uint32) {
    prop(0) == Stored(SyscallProperty.RegDwordLittleEndian, SyscallProperty.LittleEndianBytes(x)) ||
    prop(0) == Stored(SyscallProperty.RegDwordBigEndian,
                      SyscallProperty.Reverse4(SyscallProperty.LittleEndianBytes(x)))
  }

  /** The DWORD accessors read back a number stored in their own property,
      in either byte order. */
  lemma Uint32AccessorsRoundTrip(device: Device, x: uint32)
    ensures forall id :: HoldsUint32(device.registry(id), x) ==> Uint32Property(device, id) == (x, None)
    ensures HoldsUint32(device.registry(PropertyId.ConfigFlags), x) ==> ConfigFlags(device) == (x, None)
    ensures HoldsUint32(device.registry(PropertyId.DevType), x) ==> DevType(device) == (x, None)
    ensures HoldsUint32(device.registry(PropertyId.Characteristics), x) ==> Characteristics(device) == (x, None)
    ensures HoldsUint32(device.registry(PropertyId.InstallState), x) ==> InstallState(device) == (x, None)
  {
    forall id | HoldsUint32(device.registry(id), x)
      ensures Uint32Property(device, id) == (x, None)
    {
      SyscallProperty.Uint32RoundTrip(device.registry(id), x);
    }
  }

  /** The ID accessors read back the non-empty NUL-free strings of a
      stable REG_MULTI_SZ value, in order. */
  lemma IdAccessorsRoundTrip(device: Device, xs: seq<string>)
    requires forall x :: x in xs ==> x != [] && '\0' !in x
    ensures var p := device.registry(PropertyId.HardwareIds);
            p(0) == Stored(SyscallProperty.RegMultiSz, Utf16.EncodeMultiString(xs)) && p(1) == p(0) ==>
              HardwareIds(device) == (xs, None)
    ensures var p := device.registry(PropertyId.CompatibleIds);
            p(0) == Stored(SyscallProperty.RegMultiSz, Utf16.EncodeMultiString(xs)) && p(1) == p(0) ==>
              CompatibleIds(device) == (xs, None)
  {
    forall id | var p := device.registry(id);
                p(0) == Stored(SyscallProperty.RegMultiSz, Utf16.EncodeMultiString(xs)) && p(1) == p(0)
      ensures SyscallProperty.GetDeviceRegistryStrings(device.registry(id)) == (xs, None)
    {
      SyscallProperty.MultiStringRoundTrip(device.registry(id), xs);
    }
  }

  /** An absent install state (ERROR_INVALID_DATA) is reported as state 0
      together with that error. */
  lemma AbsentInstallState(device: Device)
    requires device.registry(PropertyId.InstallState)(0) == Fails(13, 0, 0)
    ensures InstallState(device) == (0, Some(ErrInvalidData))
  {
  }

  // ---------------------------------------------------------------------
  // Driver sets
  // ---------------------------------------------------------------------

  /** SPDIT_CLASSDRIVER. */
  const ClassDriver: nat := 1

  /** The parts of a driver query the core sets. */
  datatype DriverQuery = DriverQuery(driverType: nat, flagsEx: DiFlagEx.Value)

  /** A driver set: the list handle, the device record and the query. */
  datatype DriverSet = DriverSet(devices: Handle, device: DevInfoData, query: DriverQuery)

  /** Drivers: a driver set over the device's own handle and record. */
  function Drivers(device: Device, q: DriverQuery): (ds: DriverSet)
    ensures ds.devices == device.devices && ds.device == device.data && ds.query == q
  {
    DriverSet(device.devices, device.data, q)
  }

  /** InstalledDriver: the class-driver query that asks for the installed
      driver, excluded drivers allowed, on the same handle and record. */
  function InstalledDriver(device: Device): (ds: DriverSet)
    ensures ds == Drivers(device, ds.query)
    ensures ds.query.driverType == ClassDriver
    ensures DiFlagEx.Match(ds.query.flagsEx, DiFlagEx.InstalledDriver)
    ensures DiFlagEx.Match(ds.query.flagsEx, DiFlagEx.AllowExcludedDrivers)
    ensures ds.query.flagsEx & !(DiFlagEx.InstalledDriver | DiFlagEx.AllowExcludedDrivers) == 0
  {
    Drivers(device, DriverQuery(ClassDriver, DiFlagEx.InstalledDriver | DiFlagEx.AllowExcludedDrivers))
  }

  // ---------------------------------------------------------------------
  // Removal
  // ---------------------------------------------------------------------

  /** DIF_REMOVE. */
  const DifRemove: nat := 5

  // DI_NEEDRESTART and DI_NEEDREBOOT.
  const NeedRestart: bv32 := 0x80
  const NeedReboot: bv32 := 0x100

  // The removal scopes.
  const Global: nat := 1
  const ConfigSpecific: nat := 2

  /** The size of the removal parameters: a two-word class-install header,
      the scope and the hardware profile, four bytes each. */
  const RemoveParamsSize: nat := 16

  /** SP_REMOVEDEVICE_PARAMS: the header's install function, the scope and
      the hardware profile. */
  datatype RemoveParams = RemoveParams(installFunction: nat, scope: nat, hardwareProfile: nat)

  /** The parts of SP_DEVINSTALL_PARAMS the core reads. */
  datatype DevInstallParams = DevInstallParams(flags: bv32, flagsEx: DiFlagEx.Value)

  /** The three installer entry points Remove uses, as the platform would
      answer each call. */
  datatype Installer = Installer(
    setClassInstallParams: (Handle, DevInfoData, RemoveParams, nat) -> Option<Error>,
    callClassInstaller: (nat, Handle, DevInfoData) -> Option<Error>,
    getDeviceInstallParams: (Handle, DevInfoData) -> (DevInstallParams, Option<Error>))

  /** One installer call, as the trace of Remove records it. */
  datatype InstallerCall =
    | SetClassInstallParams(devices: Handle, data: DevInfoData, params: RemoveParams, size: nat)
    | CallClassInstaller(installFunction: nat, devices: Handle, data: DevInfoData)
    | GetDeviceInstallParams(devices: Handle, data: DevInfoData)

  /** Remove: set the removal parameters, call the class installer with
      DIF_REMOVE, then read the install parameters to learn whether a
      reboot is needed. A failure of either of the first two calls is
      returned at once and stops the protocol; a failure to read the
      parameters afterwards is not an error, since the device is gone. */
  method Remove(device: Device, installer: Installer, scope: nat, hardwareProfile: nat)
    returns (needReboot: bool, err: Option<Error>, calls: seq<InstallerCall>)
    ensures 1 <= |calls| <= 3
    ensures calls[0] == SetClassInstallParams(device.devices, device.data,
                                              RemoveParams(DifRemove, scope, hardwareProfile), RemoveParamsSize)
    ensures var setErr := installer.setClassInstallParams(device.devices, device.data,
                                                          RemoveParams(DifRemove, scope, hardwareProfile), RemoveParamsSize);
            setErr.Some? ==> |calls| == 1 && !needReboot && err == setErr
    ensures |calls| >= 2 ==> calls[1] == CallClassInstaller(DifRemove, device.devices, device.data)
    ensures var setErr := installer.setClassInstallParams(device.devices, device.data,
                                                          RemoveParams(DifRemove, scope, hardwareProfile), RemoveParamsSize);
            var callErr := installer.callClassInstaller(DifRemove, device.devices, device.data);
            setErr.None? && callErr.Some? ==> |calls| == 2 && !needReboot && err == callErr
    ensures var setErr := installer.setClassInstallParams(device.devices, device.data,
                                                          RemoveParams(DifRemove, scope, hardwareProfile), RemoveParamsSize);
            var callErr := installer.callClassInstaller(DifRemove, device.devices, device.data);
            setErr.None? && callErr.None? ==> |calls| == 3 && err.None?
    ensures |calls| == 3 ==> calls[2] == GetDeviceInstallParams(device.devices, device.data)
    ensures err.None? <==> |calls| == 3
    ensures var params := installer.getDeviceInstallParams(device.devices, device.data);
            |calls| == 3 ==>
              (params.1.Some? ==> !needReboot) &&
              (params.1.None? ==>
                 (needReboot <==> DiFlagEx.Match(params.0.flags, NeedReboot) || DiFlagEx.Match(params.0.flags, NeedRestart)))
  {
    var params := RemoveParams(DifRemove, scope, hardwareProfile);
    calls := [SetClassInstallParams(device.devices, device.data, params, RemoveParamsSize)];
    var setErr := installer.setClassInstallParams(device.devices, device.data, params, RemoveParamsSize);
    if setErr.Some? {
      return false, setErr, calls;
    }

    calls := calls + [CallClassInstaller(DifRemove, device.devices, device.data)];
    var callErr := installer.callClassInstaller(DifRemove, device.devices, device.data);
    if callErr.Some? {
      return false, callErr, calls;
    }

    calls := calls + [GetDeviceInstallParams(device.devices, device.data)];
    var devParams := installer.getDeviceInstallParams(device.devices, device.data);
    if devParams.1.Some? {
      return false, None, calls;
    }
    if DiFlagEx.Match(devParams.0.flags, NeedReboot) || DiFlagEx.Match(devParams.0.flags, NeedRestart) {
      return true, None, calls;
    }
    return false, None, calls;
  }
}
