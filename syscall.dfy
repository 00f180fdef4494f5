/** The older entry points of setupapi/syscall.go that have no twin in the
    newer files: the raw registry-property call, the getters with their
    retry loop written inline, and the class-GUID lookup with its own
    three-round loop. */
module Syscall {
  import opened Wrappers
  import opened Win32
  import opened Platform
  import SyscallProperty
  import SyscallDevice

  /** SetupDiGetDeviceRegistryProperty: an empty buffer is refused with
      ErrEmptyBuffer before the platform is called; otherwise the reply of
      call k, the value copied to the front of the buffer on success. */
  method SetupDiGetDeviceRegistryProperty(prop: Property, k: nat, buffer: array<uint8>)
    returns (reqSize: nat, dataType: nat, err: Option<Error>)
    modifies buffer
    ensures buffer.Length == 0 ==> reqSize == 0 && dataType == 0 && err == Some(EmptyBuffer)
    ensures buffer.Length > 0 ==>
              var r := RegistryPropertyReply(prop(k), buffer.Length);
              reqSize == r.reqSize && dataType == r.dataType &&
              (err.None? <==> r.r0 != 0) &&
              (err.Some? ==> err == Some(LastError(r.errno))) &&
              (err.None? ==> reqSize <= buffer.Length && buffer[..] == r.written + old(buffer[..])[reqSize..])
  {
    if buffer.Length == 0 {
      return 0, 0, Some(EmptyBuffer);
    }
    var r := RegistryPropertyReply(prop(k), buffer.Length);
    reqSize, dataType := r.reqSize, r.dataType;
    if r.r0 == 0 {
      err := Some(LastError(r.errno));
    } else {
      err := None;
      forall i | 0 <= i < |r.written| {
        buffer[i] := r.written[i];
      }
    }
  }

  /** The retry loop GetDeviceRegistryString and GetDeviceRegistryStrings
      write out inline: a 2 KiB buffer, then at most three calls, each
      insufficient-buffer report reallocating to exactly the reported size.
      It performs the same retrieval as the newer GetDeviceRegistryProperty. */
  method InlineRetrieval(prop: Property) returns (dataType: nat, data: seq<uint8>, err: Option<Error>)
    ensures (dataType, data, err) ==
            SyscallProperty.Outcome(SyscallProperty.Retrieval(prop, 0, SyscallProperty.StringBufferSize))
  {
    ghost var expected := SyscallProperty.Outcome(SyscallProperty.Retrieval(prop, 0, SyscallProperty.StringBufferSize));
    var buffer := new uint8[SyscallProperty.StringBufferSize];
    dataType, data, err := 0, [], None;
    var i: nat := 0;
    while i < SyscallProperty.Rounds
      invariant i <= SyscallProperty.Rounds
      invariant fresh(buffer)
      invariant i < SyscallProperty.Rounds ==>
                  expected == SyscallProperty.Outcome(SyscallProperty.Retrieval(prop, i, buffer.Length))
      invariant i == SyscallProperty.Rounds ==> expected == (dataType, [], err)
      invariant data == []
    {
      var length;
      length, dataType, err := SetupDiGetDeviceRegistryProperty(prop, i, buffer);
      if err.None? {
        data := buffer[..length];
        break;
      }
      if err == Some(ErrInsufficientBuffer) && i < SyscallProperty.Rounds {
        buffer := new uint8[length];
      } else {
        return dataType, [], err;
      }
      i := i + 1;
    }
  }

  /** GetDeviceRegistryString (older form): returns what the newer getter
      of setupapi/syscall_property.go returns, for every platform. */
  method GetDeviceRegistryString(prop: Property) returns (value: string, err: Option<Error>)
    ensures (value, err) == SyscallProperty.GetDeviceRegistryString(prop)
  {
    var dataType, data;
    dataType, data, err := InlineRetrieval(prop);
    if err.Some? {
      return "", err;
    }
    var f := SyscallProperty.Fetch(dataType, data, err, []);
    value, err := SyscallProperty.DecodeString(f).0, SyscallProperty.DecodeString(f).1;
  }

  /** GetDeviceRegistryStrings (older form): returns what the newer getter
      of setupapi/syscall_property.go returns, for every platform. */
  method GetDeviceRegistryStrings(prop: Property) returns (values: seq<string>, err: Option<Error>)
    ensures (values, err) == SyscallProperty.GetDeviceRegistryStrings(prop)
  {
    var dataType, data;
    dataType, data, err := InlineRetrieval(prop);
    if err.Some? {
      return [], err;
    }
    var f := SyscallProperty.Fetch(dataType, data, err, []);
    values, err := SyscallProperty.DecodeStrings(f).0, SyscallProperty.DecodeStrings(f).1;
  }

  // ---------------------------------------------------------------------
  // SetupDiClassGuidsFromNameEx
  // ---------------------------------------------------------------------

  /** A GUID buffer as make() allocates it: n zero GUIDs. */
  function Zeros(n: nat): (s: seq<Guid>)
    ensures |s| == n
    ensures forall i :: 0 <= i < n ==> s[i] == ZeroGuid
  {
    seq(n, _ => ZeroGuid)
  }

  /** One platform call of the lookup: the buffer size (in GUIDs) and the
      reply. */
  datatype GuidsCall = GuidsCall(bufLen: nat, reply: GuidsReply)

  predicate GuidsInsufficient(r: GuidsReply) {
    r.r0 == 0 && LastError(r.errno) == ErrInsufficientBuffer
  }

  /** The GUIDs, the error, and the trace of platform calls of a lookup. */
  datatype GuidsFetch = GuidsFetch(guids: seq<Guid>, err: Option<Error>, calls: seq<GuidsCall>)

  /** The lookup from round k on, with a fresh buffer of n GUIDs: a
      successful call ends it, with nil when the reported count is 0 and
      otherwise with the whole buffer, untruncated; an insufficient-buffer
      report leads to another round with a buffer of exactly the reported
      count, while rounds remain; any other error ends it at once
      (LookupTrace states this of the trace). */
  function Lookup(st: nat -> GuidsState, k: nat, n: nat): (f: GuidsFetch)
    requires k < SyscallProperty.Rounds
    ensures 1 <= |f.calls| <= SyscallProperty.Rounds - k
    ensures f.calls[0].bufLen == n
    ensures f.err.Some? ==> f.guids == []
    decreases SyscallProperty.Rounds - k
  {
    var r := ClassGuidsReply(st(k), n);
    var call := [GuidsCall(n, r)];
    if r.r0 != 0 then
      if r.reqSize == 0 then GuidsFetch([], None, call)
      else GuidsFetch(r.written + Zeros(n - |r.written|), None, call)
    else if LastError(r.errno) == ErrInsufficientBuffer && k + 1 < SyscallProperty.Rounds then
      var next := Lookup(st, k + 1, r.reqSize);
      GuidsFetch(next.guids, next.err, call + next.calls)
    else
      GuidsFetch([], Some(LastError(r.errno)), call)
  }

  /** The lookup's retries: each follows an insufficient-buffer report
      and uses a buffer of exactly the reported count. */
  lemma {:induction false} LookupRetries(st: nat -> GuidsState, k: nat, n: nat)
    requires k < SyscallProperty.Rounds
    ensures var f := Lookup(st, k, n);
            forall j :: 0 <= j < |f.calls| - 1 ==>
              GuidsInsufficient(f.calls[j].reply) && f.calls[j + 1].bufLen == f.calls[j].reply.reqSize
    decreases SyscallProperty.Rounds - k
  {
    var r := ClassGuidsReply(st(k), n);
    if r.r0 == 0 && LastError(r.errno) == ErrInsufficientBuffer && k + 1 < SyscallProperty.Rounds {
      LookupRetries(st, k + 1, r.reqSize);
      var next := Lookup(st, k + 1, r.reqSize);
      var f := Lookup(st, k, n);
      assert f.calls == [GuidsCall(n, r)] + next.calls;
      forall j | 1 <= j < |f.calls| - 1
        ensures GuidsInsufficient(f.calls[j].reply) && f.calls[j + 1].bufLen == f.calls[j].reply.reqSize
      {
        assert f.calls[j] == next.calls[j - 1] && f.calls[j + 1] == next.calls[j];
      }
    }
  }

  /** The lookup's last call is the oracle's reply in its round. */
  lemma {:induction false} LookupLastCall(st: nat -> GuidsState, k: nat, n: nat)
    requires k < SyscallProperty.Rounds
    ensures var f := Lookup(st, k, n); var last := SyscallProperty.Last(f.calls);
            last.reply == ClassGuidsReply(st(k + |f.calls| - 1), last.bufLen)
    decreases SyscallProperty.Rounds - k
  {
    var r := ClassGuidsReply(st(k), n);
    var f := Lookup(st, k, n);
    if r.r0 == 0 && LastError(r.errno) == ErrInsufficientBuffer && k + 1 < SyscallProperty.Rounds {
      LookupLastCall(st, k + 1, r.reqSize);
      var next := Lookup(st, k + 1, r.reqSize);
      assert f.calls == [GuidsCall(n, r)] + next.calls;
      assert k + |f.calls| - 1 == (k + 1) + |next.calls| - 1;
      assert SyscallProperty.Last(f.calls) == SyscallProperty.Last(next.calls);
    } else {
      assert f.calls == [GuidsCall(n, r)];
    }
  }

  /** The lookup's last call alone decides success: nil for a count of 0,
      otherwise the whole buffer, untruncated. */
  lemma {:induction false} LookupSucceeds(st: nat -> GuidsState, k: nat, n: nat)
    requires k < SyscallProperty.Rounds
    ensures var f := Lookup(st, k, n); var last := SyscallProperty.Last(f.calls);
            (f.err.None? <==> last.reply.r0 != 0) &&
            (f.err.None? && last.reply.reqSize == 0 ==> f.guids == []) &&
            (f.err.None? && last.reply.reqSize != 0 ==>
              f.guids == last.reply.written + Zeros(last.bufLen - |last.reply.written|))
    decreases SyscallProperty.Rounds - k
  {
    var r := ClassGuidsReply(st(k), n);
    var f := Lookup(st, k, n);
    if r.r0 == 0 && LastError(r.errno) == ErrInsufficientBuffer && k + 1 < SyscallProperty.Rounds {
      LookupSucceeds(st, k + 1, r.reqSize);
      var next := Lookup(st, k + 1, r.reqSize);
      assert f.calls == [GuidsCall(n, r)] + next.calls;
      assert SyscallProperty.Last(f.calls) == SyscallProperty.Last(next.calls);
    } else {
      assert f.calls == [GuidsCall(n, r)];
    }
  }

  /** The lookup's errors: ERROR_INSUFFICIENT_BUFFER exactly when every
      round reported an insufficient buffer; otherwise the last call's own
      error. */
  lemma {:induction false} LookupErrors(st: nat -> GuidsState, k: nat, n: nat)
    requires k < SyscallProperty.Rounds
    ensures var f := Lookup(st, k, n); var last := SyscallProperty.Last(f.calls);
            f.err == Some(ErrInsufficientBuffer) <==>
              |f.calls| == SyscallProperty.Rounds - k && GuidsInsufficient(last.reply)
    ensures var f := Lookup(st, k, n); var last := SyscallProperty.Last(f.calls);
            f.err.Some? && f.err != Some(ErrInsufficientBuffer) ==>
              !GuidsInsufficient(last.reply) && f.err == Some(LastError(last.reply.errno))
    decreases SyscallProperty.Rounds - k
  {
    var r := ClassGuidsReply(st(k), n);
    if r.r0 == 0 && LastError(r.errno) == ErrInsufficientBuffer && k + 1 < SyscallProperty.Rounds {
      LookupErrors(st, k + 1, r.reqSize);
      var next := Lookup(st, k + 1, r.reqSize);
      var f := Lookup(st, k, n);
      assert f.calls == [GuidsCall(n, r)] + next.calls;
      assert SyscallProperty.Last(f.calls) == SyscallProperty.Last(next.calls);
    }
  }

  /** One round of the lookup, in terms of the reply to its call. */
  lemma LookupRound(st: nat -> GuidsState, k: nat, n: nat)
    requires k < SyscallProperty.Rounds
    ensures var r := ClassGuidsReply(st(k), n);
            var f := Lookup(st, k, n);
            (r.r0 != 0 && r.reqSize == 0 ==> f.guids == [] && f.err == None) &&
            (r.r0 != 0 && r.reqSize != 0 ==> f.guids == r.written + Zeros(n - |r.written|) && f.err == None) &&
            (r.r0 == 0 && LastError(r.errno) == ErrInsufficientBuffer && k + 1 < SyscallProperty.Rounds ==>
               f.guids == Lookup(st, k + 1, r.reqSize).guids && f.err == Lookup(st, k + 1, r.reqSize).err) &&
            (r.r0 == 0 && !(LastError(r.errno) == ErrInsufficientBuffer && k + 1 < SyscallProperty.Rounds) ==>
               f.guids == [] && f.err == Some(LastError(r.errno)))
  {
  }

  /** SetupDiClassGuidsFromNameEx as a value: a class name or a non-empty
      machine name holding a NUL fails with EINVAL before any call;
      otherwise the lookup starts with a one-GUID buffer. */
  function ClassGuidsFromName(st: nat -> GuidsState, className: string, machine: string): (r: (seq<Guid>, Option<Error>))
    ensures '\0' in className || !SyscallDevice.ConvertibleOrEmpty(machine) ==> r == ([], Some(EInval))
    ensures r.1.Some? ==> r.0 == []
  {
    if '\0' in className || !SyscallDevice.ConvertibleOrEmpty(machine) then ([], Some(EInval))
    else
      var f := Lookup(st, 0, 1);
      (f.guids, f.err)
  }

  /** setupDiClassGuidsFromNameEx on a real buffer: on success the platform
      copies the GUIDs to the front of the buffer. */
  method CallClassGuids(st: nat -> GuidsState, k: nat, buffer: array<Guid>) returns (reqSize: nat, err: Option<Error>)
    modifies buffer
    ensures var r := ClassGuidsReply(st(k), buffer.Length);
            reqSize == r.reqSize &&
            (err.None? <==> r.r0 != 0) &&
            (err.Some? ==> err == Some(LastError(r.errno))) &&
            (err.None? ==> buffer[..] == r.written + old(buffer[..])[|r.written|..])
  {
    var r := ClassGuidsReply(st(k), buffer.Length);
    reqSize := r.reqSize;
    if r.r0 == 0 {
      err := Some(LastError(r.errno));
    } else {
      err := None;
      forall i | 0 <= i < |r.written| {
        buffer[i] := r.written[i];
      }
    }
  }

  /** The retry loop of SetupDiClassGuidsFromNameEx, on real buffers: a
      one-GUID buffer first, then a buffer of exactly the reported count
      after each insufficient-buffer report, for up to three rounds. */
  method ClassGuidsRetry(st: nat -> GuidsState) returns (guids: seq<Guid>, err: Option<Error>)
    ensures guids == Lookup(st, 0, 1).guids && err == Lookup(st, 0, 1).err
  {
    ghost var expected := Lookup(st, 0, 1);
    var buffer := new Guid[1](_ => ZeroGuid);
    var i: nat := 0;
    while i < SyscallProperty.Rounds
      invariant i <= SyscallProperty.Rounds
      invariant fresh(buffer)
      invariant buffer[..] == Zeros(buffer.Length)
      invariant i < SyscallProperty.Rounds ==> expected.guids == Lookup(st, i, buffer.Length).guids
      invariant i < SyscallProperty.Rounds ==> expected.err == Lookup(st, i, buffer.Length).err
      invariant i == SyscallProperty.Rounds ==> expected.guids == [] && expected.err == Some(ErrInsufficientBuffer)
    {
      var length;
      ghost var before := buffer[..];
      LookupRound(st, i, buffer.Length);
      length, err := CallClassGuids(st, i, buffer);
      if err.None? {
        if length == 0 {
          return [], None;
        }
        ghost var written := ClassGuidsReply(st(i), buffer.Length).written;
        assert before[|written|..] == Zeros(buffer.Length - |written|);
        return buffer[..], None;
      }
      if err == Some(ErrInsufficientBuffer) && i < SyscallProperty.Rounds {
        buffer := new Guid[length](_ => ZeroGuid);
      } else {
        return [], err;
      }
      i := i + 1;
    }
    return [], Some(ErrInsufficientBuffer);
  }

  /** SetupDiClassGuidsFromNameEx: the class and machine names are
      converted first, then the retry loop runs. */
  method SetupDiClassGuidsFromNameEx(st: nat -> GuidsState, className: string, machine: string)
    returns (guids: seq<Guid>, err: Option<Error>)
    ensures (guids, err) == ClassGuidsFromName(st, className, machine)
  {
    if '\0' in className {
      return [], Some(EInval);
    }
    if machine != "" && '\0' in machine {
      return [], Some(EInval);
    }
    guids, err := ClassGuidsRetry(st);
  }

  // ---------------------------------------------------------------------
  // Scenarios of the lookup
  // ---------------------------------------------------------------------

  /** A class with no GUIDs yields nil and no error, after one call. */
  lemma ZeroCountIsNil(st: nat -> GuidsState, className: string)
    requires '\0' !in className
    requires st(0) == GuidsStored([])
    ensures ClassGuidsFromName(st, className, "") == ([], None)
    ensures |Lookup(st, 0, 1).calls| == 1
  {
  }

  /** A class with one GUID is found with the first call. */
  lemma SingleGuidFound(st: nat -> GuidsState, className: string, g: Guid)
    requires '\0' !in className
    requires st(0) == GuidsStored([g])
    ensures ClassGuidsFromName(st, className, "") == ([g], None)
  {
    assert [g] + Zeros(0) == [g];
  }

  /** A stable list of several GUIDs is read with two calls, the second
      with a buffer of exactly the list's length. */
  lemma StableListIsRead(st: nat -> GuidsState, className: string, gs: seq<Guid>)
    requires '\0' !in className && |gs| > 1
    requires st(0) == GuidsStored(gs) && st(1) == GuidsStored(gs)
    ensures ClassGuidsFromName(st, className, "") == (gs, None)
    ensures var f := Lookup(st, 0, 1); |f.calls| == 2 && f.calls[1].bufLen == |gs|
  {
    var f := Lookup(st, 0, 1);
    assert f.calls[1].bufLen == f.calls[0].reply.reqSize;
    assert gs + Zeros(0) == gs;
  }

  /** The buffer is returned untruncated: when the list shrinks from three
      GUIDs to two between the calls, the result holds three entries, the
      last a zero GUID the platform never wrote. */
  lemma ShrunkListIsPadded(st: nat -> GuidsState, a: Guid, b: Guid, c: Guid)
    requires st(0) == GuidsStored([a, b, c]) && st(1) == GuidsStored([a, b])
    ensures ClassGuidsFromName(st, "Net", "") == ([a, b, ZeroGuid], None)
  {
    assert Lookup(st, 1, 3).guids == [a, b] + Zeros(1);
    assert [a, b] + Zeros(1) == [a, b, ZeroGuid];
  }

  /** A platform that keeps reporting an insufficient buffer is called
      three times; the lookup then fails with ERROR_INSUFFICIENT_BUFFER. */
  lemma GivesUpAfterThreeRounds(st: nat -> GuidsState, className: string)
    requires '\0' !in className
    requires forall k: nat :: st(k).GuidsFail? && st(k).errno == 122
    ensures ClassGuidsFromName(st, className, "") == ([], Some(ErrInsufficientBuffer))
    ensures |Lookup(st, 0, 1).calls| == 3
  {
    assert GuidsInsufficient(ClassGuidsReply(st(2), ClassGuidsReply(st(1), ClassGuidsReply(st(0), 1).reqSize).reqSize));
  }

  /** Any other failure ends the lookup after its first call. */
  lemma OtherErrorIsImmediate(st: nat -> GuidsState, className: string, e: nat)
    requires '\0' !in className && e != 122
    requires st(0) == GuidsFail(e, 0)
    ensures ClassGuidsFromName(st, className, "") == ([], Some(LastError(e)))
    ensures |Lookup(st, 0, 1).calls| == 1
  {
  }
}
