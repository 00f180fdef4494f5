/** Growable-buffer retrieval of a device registry property and the typed
    decoders built on it (setupapi/syscall_property.go). */
module SyscallProperty {
  import opened Wrappers
  import opened Win32
  import opened Platform
  import Utf16

  /** The number of attempts GetDeviceRegistryProperty makes. */
  const Rounds: nat := 3

  // Registry value types.
  const RegSz: nat := 1
  const RegExpandSz: nat := 2
  const RegDwordLittleEndian: nat := 4
  const RegDwordBigEndian: nat := 5
  const RegMultiSz: nat := 7

  /** The buffer sizes the string and integer getters start with. */
  const StringBufferSize: nat := 2048
  const Uint32BufferSize: nat := 4

  /** One platform call as a trace records it: the buffer size passed and
      the reply. */
  datatype Call = Call(bufLen: nat, reply: PropReply)

  predicate Insufficient(r: PropReply) {
    r.r0 == 0 && LastError(r.errno) == ErrInsufficientBuffer
  }

  /** What getDeviceRegistryProperty returns: the required size, the type,
      the error, and the trace of the platform calls it made (none when the
      buffer is empty). */
  datatype Attempt = Attempt(reqSize: nat, dataType: nat, err: Option<Error>, calls: seq<Call>)

  /** getDeviceRegistryProperty: an empty buffer is refused before any
      platform call; otherwise one call, whose failure is reported as the
      last error (or EINVAL when there is none). */
  function GuardedCall(prop: Property, k: nat, bufLen: nat): (a: Attempt)
    ensures bufLen == 0 <==> a.calls == []
    ensures bufLen == 0 ==> a == Attempt(0, 0, Some(EmptyBuffer), [])
    ensures bufLen > 0 ==> a.calls == [Call(bufLen, RegistryPropertyReply(prop(k), bufLen))]
    ensures bufLen > 0 ==> (a.err.None? <==> a.calls[0].reply.r0 != 0)
    ensures a.err != Some(EmptyBuffer) ==> bufLen > 0
  {
    if bufLen == 0 then Attempt(0, 0, Some(EmptyBuffer), [])
    else
      var r := RegistryPropertyReply(prop(k), bufLen);
      Attempt(r.reqSize, r.dataType, if r.r0 == 0 then Some(LastError(r.errno)) else None, [Call(bufLen, r)])
  }

  /** The outcome of GetDeviceRegistryProperty: the type, the data, the
      error, and the trace of platform calls. */
  datatype Fetch = Fetch(dataType: nat, data: seq<uint8>, err: Option<Error>, calls: seq<Call>)

  function Last<T>(s: seq<T>): T
    requires s != []
  {
    s[|s| - 1]
  }

  /** GetDeviceRegistryProperty from round k on, with a buffer of bufLen
      bytes: success ends the retrieval with the bytes the platform copied;
      ERROR_INSUFFICIENT_BUFFER leads to another round with a buffer of
      exactly the reported size, while rounds remain; any other error ends
      it at once (RetrievalRetries, RetrievalSucceeds and RetrievalFails
      state this of the trace). */
  function Retrieval(prop: Property, k: nat, bufLen: nat): (f: Fetch)
    requires k < Rounds
    ensures |f.calls| <= Rounds - k
    ensures f.calls == [] <==> bufLen == 0
    ensures f.calls != [] ==> f.calls[0].bufLen == bufLen
    ensures f.err.Some? ==> f.data == []
    decreases Rounds - k
  {
    var a := GuardedCall(prop, k, bufLen);
    if a.err.None? then
      Fetch(a.dataType, a.calls[0].reply.written, None, a.calls)
    else if a.err == Some(ErrInsufficientBuffer) && k + 1 < Rounds then
      var next := Retrieval(prop, k + 1, a.reqSize);
      Fetch(next.dataType, next.data, next.err, a.calls + next.calls)
    else
      Fetch(a.dataType, [], a.err, a.calls)
  }

  /** One round of the retrieval, in terms of its guarded call. */
  lemma RetrievalRound(prop: Property, k: nat, bufLen: nat)
    requires k < Rounds
    ensures var a := GuardedCall(prop, k, bufLen);
            var f := Retrieval(prop, k, bufLen);
            (a.err.None? ==> Outcome(f) == (a.dataType, a.calls[0].reply.written, None)) &&
            (a.err == Some(ErrInsufficientBuffer) && k + 1 < Rounds ==>
               Outcome(f) == Outcome(Retrieval(prop, k + 1, a.reqSize))) &&
            (a.err.Some? && !(a.err == Some(ErrInsufficientBuffer) && k + 1 < Rounds) ==>
               Outcome(f) == (a.dataType, [], a.err))
  {
  }

  /** The retrieval's retries: each follows an insufficient-buffer report
      and uses a buffer of exactly the reported size. */
  lemma {:induction false} RetrievalRetries(prop: Property, k: nat, bufLen: nat)
    requires k < Rounds
    ensures var f := Retrieval(prop, k, bufLen);
            forall j :: 0 <= j < |f.calls| - 1 ==>
              Insufficient(f.calls[j].reply) && f.calls[j + 1].bufLen == f.calls[j].reply.reqSize
    decreases Rounds - k
  {
    var a := GuardedCall(prop, k, bufLen);
    if a.err == Some(ErrInsufficientBuffer) && k + 1 < Rounds {
      RetrievalRetries(prop, k + 1, a.reqSize);
      var next := Retrieval(prop, k + 1, a.reqSize);
      var f := Retrieval(prop, k, bufLen);
      assert f.calls == a.calls + next.calls;
      forall j | 0 <= j < |f.calls| - 1
        ensures Insufficient(f.calls[j].reply) && f.calls[j + 1].bufLen == f.calls[j].reply.reqSize
      {
        if j >= 1 {
          assert f.calls[j] == next.calls[j - 1] && f.calls[j + 1] == next.calls[j];
        }
      }
    }
  }

  /** A successful retrieval returns what its last call copied, within
      that call's buffer, with that call's type. */
  lemma {:induction false} RetrievalSucceeds(prop: Property, k: nat, bufLen: nat)
    requires k < Rounds
    ensures var f := Retrieval(prop, k, bufLen);
            f.err.None? ==>
              f.calls != [] && Last(f.calls).reply.r0 != 0 &&
              f.data == Last(f.calls).reply.written && |f.data| <= Last(f.calls).bufLen &&
              f.dataType == Last(f.calls).reply.dataType
    decreases Rounds - k
  {
    var a := GuardedCall(prop, k, bufLen);
    if a.err == Some(ErrInsufficientBuffer) && k + 1 < Rounds {
      RetrievalSucceeds(prop, k + 1, a.reqSize);
      var next := Retrieval(prop, k + 1, a.reqSize);
      var f := Retrieval(prop, k, bufLen);
      assert f.calls == a.calls + next.calls;
      if next.calls != [] {
        assert Last(f.calls) == Last(next.calls);
      }
    }
  }

  /** A failed retrieval: ERROR_INSUFFICIENT_BUFFER exactly when every
      round reported an insufficient buffer; ErrEmptyBuffer only for an
      empty first buffer or a reported size of 0; otherwise the last
      call's own error. */
  lemma {:induction false} RetrievalFails(prop: Property, k: nat, bufLen: nat)
    requires k < Rounds
    ensures var f := Retrieval(prop, k, bufLen);
            f.err == Some(ErrInsufficientBuffer) <==>
              |f.calls| == Rounds - k && Insufficient(Last(f.calls).reply)
    ensures var f := Retrieval(prop, k, bufLen);
            f.err == Some(EmptyBuffer) ==>
              f.calls == [] || (Insufficient(Last(f.calls).reply) && Last(f.calls).reply.reqSize == 0)
    ensures var f := Retrieval(prop, k, bufLen);
            f.err.Some? && f.err != Some(EmptyBuffer) && f.err != Some(ErrInsufficientBuffer) ==>
              f.calls != [] && !Insufficient(Last(f.calls).reply) && f.err == Some(LastError(Last(f.calls).reply.errno))
    decreases Rounds - k
  {
    var a := GuardedCall(prop, k, bufLen);
    if a.err == Some(ErrInsufficientBuffer) && k + 1 < Rounds {
      RetrievalFails(prop, k + 1, a.reqSize);
      var next := Retrieval(prop, k + 1, a.reqSize);
      var f := Retrieval(prop, k, bufLen);
      assert f.calls == a.calls + next.calls;
      assert |a.calls| == 1;
      if next.calls != [] {
        assert Last(f.calls) == Last(next.calls);
      }
    }
  }

  /** The type, data and error of a retrieval, without its trace. */
  function Outcome(f: Fetch): (nat, seq<uint8>, Option<Error>) {
    (f.dataType, f.data, f.err)
  }

  /** getDeviceRegistryProperty, on a real buffer: the platform copies the
      value to the front of the buffer when the call succeeds. */
  method CallRegistryProperty(prop: Property, k: nat, buffer: array<uint8>)
    returns (reqSize: nat, dataType: nat, err: Option<Error>)
    modifies buffer
    ensures var a := GuardedCall(prop, k, buffer.Length);
            reqSize == a.reqSize && dataType == a.dataType && err == a.err
    ensures err.None? ==>
              reqSize <= buffer.Length &&
              buffer[..] == RegistryPropertyReply(prop(k), buffer.Length).written + old(buffer[..])[reqSize..]
  {
    var a := GuardedCall(prop, k, buffer.Length);
    reqSize, dataType, err := a.reqSize, a.dataType, a.err;
    if err.None? {
      var written := a.calls[0].reply.written;
      forall i | 0 <= i < |written| {
        buffer[i] := written[i];
      }
    }
  }

  /** GetDeviceRegistryProperty: up to three attempts, each with a buffer of
      exactly the size the previous attempt reported. */
  method GetDeviceRegistryProperty(prop: Property, buffer: array<uint8>)
    returns (dataType: nat, data: seq<uint8>, err: Option<Error>)
    modifies buffer
    ensures (dataType, data, err) == Outcome(Retrieval(prop, 0, buffer.Length))
  {
    ghost var expected := Outcome(Retrieval(prop, 0, buffer.Length));
    var buf := buffer;
    dataType, data, err := 0, [], None;
    var i: nat := 0;
    while i < Rounds
      invariant i <= Rounds
      invariant buf == buffer || fresh(buf)
      invariant i < Rounds ==> expected == Outcome(Retrieval(prop, i, buf.Length))
      invariant i == Rounds ==> expected == (dataType, [], err)
      invariant data == []
    {
      var length;
      RetrievalRound(prop, i, buf.Length);
      length, dataType, err := CallRegistryProperty(prop, i, buf);
      if err.None? {
        data := buf[..length];
        break;
      }
      if err == Some(ErrInsufficientBuffer) && i < Rounds {
        buf := new uint8[length];
      } else {
        return dataType, [], err;
      }
      i := i + 1;
    }
  }

  // ---------------------------------------------------------------------
  // Scenarios of the retrieval protocol
  // ---------------------------------------------------------------------

  /** A value larger than the first buffer is read with exactly two calls:
      the second with a buffer of exactly the value's size. */
  lemma RetrievalGrowsOnce(prop: Property, t: nat, b: seq<uint8>, n: nat)
    requires 0 < n < |b|
    requires prop(0) == Stored(t, b) && prop(1) == Stored(t, b)
    ensures var f := Retrieval(prop, 0, n);
            |f.calls| == 2 && f.calls[1].bufLen == |b| && f.err.None? && f.data == b && f.dataType == t
  {
    var f := Retrieval(prop, 0, n);
    assert f.calls[1].bufLen == f.calls[0].reply.reqSize;
    assert Retrieval(prop, 1, |b|).calls == [Call(|b|, RegistryPropertyReply(Stored(t, b), |b|))];
  }

  /** A platform that keeps reporting an insufficient buffer is called
      exactly three times, and the retrieval then fails with
      ERROR_INSUFFICIENT_BUFFER. */
  lemma RetrievalGivesUpAfterThreeRounds(prop: Property, n: nat)
    requires n > 0
    requires forall k: nat :: prop(k).Fails? && prop(k).errno == 122 && prop(k).reqSize > 0
    ensures var f := Retrieval(prop, 0, n);
            |f.calls| == 3 && f.err == Some(ErrInsufficientBuffer) && f.data == []
  {
    var r0 := RegistryPropertyReply(prop(0), n);
    var r1 := RegistryPropertyReply(prop(1), r0.reqSize);
    assert Insufficient(RegistryPropertyReply(prop(2), r1.reqSize));
  }

  /** A value that grows between calls also exhausts the three rounds. */
  lemma RetrievalGivesUpOnGrowingValue(prop: Property, t: nat, n: nat)
    requires n > 0
    requires forall k: nat :: prop(k).Stored? && |prop(k).bytes| > n
    requires forall k: nat :: |prop(k + 1).bytes| > |prop(k).bytes|
    ensures var f := Retrieval(prop, 0, n);
            |f.calls| == 3 && f.err == Some(ErrInsufficientBuffer)
  {
    assert |prop(1).bytes| > |prop(0).bytes| && |prop(2).bytes| > |prop(1).bytes|;
  }

  /** An insufficient-buffer report of size zero makes the next round's
      buffer empty, which ends the retrieval with ErrEmptyBuffer after a
      single platform call. */
  lemma RetrievalZeroSizeReport(prop: Property, n: nat)
    requires n > 0
    requires prop(0) == Fails(122, 0, 0)
    ensures var f := Retrieval(prop, 0, n);
            |f.calls| == 1 && f.err == Some(EmptyBuffer)
  {
  }

  // ---------------------------------------------------------------------
  // Typed decoding (the switches of the three getters)
  // ---------------------------------------------------------------------

  /** The switch of GetDeviceRegistryString: a retrieval error is passed
      on; REG_SZ and REG_EXPAND_SZ decode as one string; any other type is
      an error that names it. The string is "" whenever there is an error. */
  function DecodeString(f: Fetch): (r: (string, Option<Error>))
    ensures r.1.Some? ==> r.0 == ""
    ensures f.err.Some? ==> r.1 == f.err
    ensures f.err.None? ==>
              (r.1.None? <==> f.dataType in {RegSz, RegExpandSz}) &&
              (r.1.Some? ==> r.1 == Some(UnexpectedType("REG_SZ", f.dataType)))
  {
    if f.err.Some? then ("", f.err)
    else if f.dataType == RegSz || f.dataType == RegExpandSz then (Utf16.BytesToString(f.data), None)
    else ("", Some(UnexpectedType("REG_SZ", f.dataType)))
  }

  /** The switch of GetDeviceRegistryStrings: REG_SZ and REG_EXPAND_SZ give
      a one-string list, REG_MULTI_SZ is split; any other type is an error.
      The list is empty (nil) whenever there is an error. */
  function DecodeStrings(f: Fetch): (r: (seq<string>, Option<Error>))
    ensures r.1.Some? ==> r.0 == []
    ensures f.err.Some? ==> r.1 == f.err
    ensures f.err.None? ==>
              (r.1.None? <==> f.dataType in {RegSz, RegExpandSz, RegMultiSz}) &&
              (r.1.Some? ==> r.1 == Some(UnexpectedType("REG_MULTI_SZ", f.dataType)))
    ensures f.err.None? && f.dataType in {RegSz, RegExpandSz} ==> |r.0| == 1
  {
    if f.err.Some? then ([], f.err)
    else if f.dataType == RegSz || f.dataType == RegExpandSz then ([Utf16.BytesToString(f.data)], None)
    else if f.dataType == RegMultiSz then (Utf16.BytesToSplitString(f.data), None)
    else ([], Some(UnexpectedType("REG_MULTI_SZ", f.dataType)))
  }

  function LittleEndianUint32(b: seq<uint8>): uint32
    requires |b| == 4
  {
    (b[0] as int + 0x100 * b[1] as int + 0x1_0000 * b[2] as int + 0x100_0000 * b[3] as int) as uint32
  }

  function BigEndianUint32(b: seq<uint8>): uint32
    requires |b| == 4
  {
    (b[3] as int + 0x100 * b[2] as int + 0x1_0000 * b[1] as int + 0x100_0000 * b[0] as int) as uint32
  }

  /** The switch of GetDeviceRegistryUint32: the length is checked before
      the type; a little-endian DWORD and a big-endian DWORD decode in their
      own byte order; any other type is an error. The value is 0 whenever
      there is an error. */
  function DecodeUint32(f: Fetch): (r: (uint32, Option<Error>))
    ensures r.1.Some? ==> r.0 == 0
    ensures f.err.Some? ==> r.1 == f.err
    ensures f.err.None? && |f.data| != 4 ==> r.1 == Some(UnexpectedLength(|f.data|))
    ensures f.err.None? && |f.data| == 4 ==>
              (r.1.None? <==> f.dataType in {RegDwordLittleEndian, RegDwordBigEndian}) &&
              (r.1.Some? ==> r.1 == Some(UnexpectedType("REG_DWORD", f.dataType)))
  {
    if f.err.Some? then (0, f.err)
    else if |f.data| != 4 then (0, Some(UnexpectedLength(|f.data|)))
    else if f.dataType == RegDwordLittleEndian then (LittleEndianUint32(f.data), None)
    else if f.dataType == RegDwordBigEndian then (BigEndianUint32(f.data), None)
    else (0, Some(UnexpectedType("REG_DWORD", f.dataType)))
  }

  /** GetDeviceRegistryString: a retrieval starting with a 2 KiB buffer,
      then the string switch. */
  function GetDeviceRegistryString(prop: Property): (string, Option<Error>) {
    DecodeString(Retrieval(prop, 0, StringBufferSize))
  }

  /** GetDeviceRegistryStrings: a retrieval starting with a 2 KiB buffer,
      then the string-list switch. */
  function GetDeviceRegistryStrings(prop: Property): (seq<string>, Option<Error>) {
    DecodeStrings(Retrieval(prop, 0, StringBufferSize))
  }

  /** GetDeviceRegistryUint32: a retrieval starting with a 4-byte buffer,
      then the DWORD switch. */
  function GetDeviceRegistryUint32(prop: Property): (uint32, Option<Error>) {
    DecodeUint32(Retrieval(prop, 0, Uint32BufferSize))
  }

  // ---------------------------------------------------------------------
  // Round trips of the decoders
  // ---------------------------------------------------------------------

  /** A stored value that does not change between calls is read in full,
      whatever its size, with one or two calls. */
  lemma {:induction false} StableValueIsRead(prop: Property, t: nat, b: seq<uint8>, n: nat)
    requires n > 0 && b != []
    requires prop(0) == Stored(t, b) && prop(1) == Stored(t, b)
    ensures var f := Retrieval(prop, 0, n);
            f.err.None? && f.data == b && f.dataType == t && |f.calls| <= 2
  {
    if n < |b| {
      RetrievalGrowsOnce(prop, t, b, n);
    }
  }

  /** A stable REG_SZ or REG_EXPAND_SZ value holding a NUL-free string is
      read back as that string. */
  lemma StringRoundTrip(prop: Property, t: nat, s: string)
    requires t in {RegSz, RegExpandSz} && '\0' !in s
    requires prop(0) == Stored(t, Utf16.EncodeString(s)) && prop(1) == prop(0)
    ensures GetDeviceRegistryString(prop) == (s, None)
    ensures GetDeviceRegistryStrings(prop) == ([s], None)
  {
    StableValueIsRead(prop, t, Utf16.EncodeString(s), StringBufferSize);
    Utf16.StringRoundTrip(s);
  }

  /** A stable REG_MULTI_SZ value holding non-empty NUL-free strings is
      read back as exactly those strings, in order. */
  lemma MultiStringRoundTrip(prop: Property, xs: seq<string>)
    requires forall x :: x in xs ==> x != [] && '\0' !in x
    requires prop(0) == Stored(RegMultiSz, Utf16.EncodeMultiString(xs)) && prop(1) == prop(0)
    ensures GetDeviceRegistryStrings(prop) == (xs, None)
  {
    StableValueIsRead(prop, RegMultiSz, Utf16.EncodeMultiString(xs), StringBufferSize);
    Utf16.MultiStringRoundTrip(xs);
  }

  /** The four bytes of x, least significant first. */
  function LittleEndianBytes(x: uint32): (b: seq<uint8>)
    ensures |b| == 4
  {
    var v := x as int;
    [(v % 0x100) as uint8, (v / 0x100 % 0x100) as uint8, (v / 0x100 / 0x100 % 0x100) as uint8, (v / 0x100 / 0x100 / 0x100) as uint8]
  }

  /** Each byte order reads back the number whose bytes it was given. */
  lemma LittleEndianRoundTrip(x: uint32)
    ensures LittleEndianUint32(LittleEndianBytes(x)) == x
    ensures BigEndianUint32(Reverse4(LittleEndianBytes(x))) == x
  {
    var v := x as int;
    var q1 := v / 0x100;
    var q2 := q1 / 0x100;
    var q3 := q2 / 0x100;
    assert v == 0x100 * q1 + v % 0x100;
    assert q1 == 0x100 * q2 + q1 % 0x100;
    assert q2 == 0x100 * q3 + q2 % 0x100;
    assert v == v % 0x100 + 0x100 * (q1 % 0x100) + 0x1_0000 * (q2 % 0x100) + 0x100_0000 * q3;
  }

  function Reverse4(b: seq<uint8>): seq<uint8>
    requires |b| == 4
  {
    [b[3], b[2], b[1], b[0]]
  }

  /** A stable DWORD value is read back as the number it encodes, in the
      byte order its type names. */
  lemma Uint32RoundTrip(prop: Property, x: uint32)
    ensures prop(0) == Stored(RegDwordLittleEndian, LittleEndianBytes(x)) ==>
              GetDeviceRegistryUint32(prop) == (x, None)
    ensures prop(0) == Stored(RegDwordBigEndian, Reverse4(LittleEndianBytes(x))) ==>
              GetDeviceRegistryUint32(prop) == (x, None)
  {
    LittleEndianRoundTrip(x);
  }

  /** The bytes 01 00 00 00 read as 1 under the little-endian type and as
      16777216 under the big-endian type; three bytes are refused by their
      length before their type is looked at. */
  lemma Uint32Examples(prop: Property)
    ensures prop(0) == Stored(RegDwordLittleEndian, [1, 0, 0, 0]) ==> GetDeviceRegistryUint32(prop) == (1, None)
    ensures prop(0) == Stored(RegDwordBigEndian, [1, 0, 0, 0]) ==> GetDeviceRegistryUint32(prop) == (16777216, None)
    ensures prop(0) == Stored(RegSz, [1, 0, 0]) ==> GetDeviceRegistryUint32(prop) == (0, Some(UnexpectedLength(3)))
  {
  }
}
