/** Opening, enumerating and destroying device information lists
    (setupapi/syscall_device.go): the flag adjustment before the call and
    the mapping of each call's result to a Go error. */
module SyscallDevice {
  import opened Wrappers
  import opened Win32
  import opened Platform

  /** DIGCF_ALLCLASSES. */
  const AllClasses: bv32 := 0x4

  /** syscall.UTF16PtrFromString fails with EINVAL on a string holding a
      NUL; an empty string is never converted (it is passed as nil). */
  predicate ConvertibleOrEmpty(s: string) {
    s == "" || '\0' !in s
  }

  /** The flags GetClassDevsEx passes on: AllClasses is added when no class
      GUID is given; otherwise the caller's flags go through untouched. */
  function ClassDevsFlags(guid: Option<Guid>, flags: bv32): (f: bv32)
    ensures guid.None? ==> f & AllClasses == AllClasses && f & !AllClasses == flags & !AllClasses
    ensures guid.Some? ==> f == flags
  {
    if guid.None? then flags | AllClasses else flags
  }

  /** GetClassDevsEx: strings that cannot be converted fail with EINVAL
      before the call; otherwise the handle the platform returns, with an
      error exactly when it is InvalidHandle. */
  function GetClassDevsEx(open: OpenArgs -> HandleReply, guid: Option<Guid>, enumerator: string,
                          flags: bv32, devInfoSet: Handle, machine: string): (r: (Handle, Option<Error>))
    ensures r.1.None? <==> r.0 != InvalidHandle
    ensures r.1 != Some(Errno(0))
    ensures !ConvertibleOrEmpty(enumerator) || !ConvertibleOrEmpty(machine) ==> r == (InvalidHandle, Some(EInval))
    ensures ConvertibleOrEmpty(enumerator) && ConvertibleOrEmpty(machine) ==>
              var reply := open(OpenArgs(guid, enumerator, ClassDevsFlags(guid, flags), devInfoSet, machine));
              r.0 == reply.handle && (r.0 == InvalidHandle ==> r.1 == Some(LastError(reply.errno)))
  {
    if !ConvertibleOrEmpty(enumerator) || !ConvertibleOrEmpty(machine) then (InvalidHandle, Some(EInval))
    else
      var reply := open(OpenArgs(guid, enumerator, ClassDevsFlags(guid, flags), devInfoSet, machine));
      if reply.handle == InvalidHandle then (InvalidHandle, Some(LastError(reply.errno)))
      else (reply.handle, None)
  }

  /** CreateDeviceInfoList: the same invalid-handle mapping. */
  function CreateDeviceInfoList(create: Option<Guid> -> HandleReply, guid: Option<Guid>): (r: (Handle, Option<Error>))
    ensures r.0 == create(guid).handle
    ensures r.1.None? <==> r.0 != InvalidHandle
    ensures r.1.Some? ==> r.1 == Some(LastError(create(guid).errno))
  {
    var reply := create(guid);
    if reply.handle == InvalidHandle then (reply.handle, Some(LastError(reply.errno))) else (reply.handle, None)
  }

  /** DestroyDeviceInfoList: nil when the call succeeds, otherwise the last
      error (EINVAL when there is none). */
  function DestroyDeviceInfoList(reply: BoolReply): (err: Option<Error>)
    ensures err.None? <==> reply.r0 != 0
    ensures err.Some? ==> err.value != Errno(0) && (err.value == EInval <==> reply.errno == 0)
  {
    if reply.r0 != 0 then None else Some(LastError(reply.errno))
  }

  /** EnumDeviceInfo: nil when the call succeeds; on failure ERROR_NO_MORE_ITEMS
      becomes io.EOF, a zero code EINVAL, and any other code its Errno. */
  function EnumDeviceInfo(reply: EnumReply): (r: (DevInfoData, Option<Error>))
    ensures r.0 == reply.info
    ensures r.1.None? <==> reply.r0 != 0
    ensures r.1 == Some(Eof) <==> reply.r0 == 0 && reply.errno == ErrNoMoreItems
    ensures r.1 == Some(EInval) <==> reply.r0 == 0 && reply.errno == 0
    ensures reply.r0 == 0 && reply.errno != 0 && reply.errno != ErrNoMoreItems ==> r.1 == Some(Errno(reply.errno))
  {
    if reply.r0 != 0 then (reply.info, None)
    else if reply.errno == 0 then (reply.info, Some(EInval))
    else if reply.errno == ErrNoMoreItems then (reply.info, Some(Eof))
    else (reply.info, Some(Errno(reply.errno)))
  }
}
