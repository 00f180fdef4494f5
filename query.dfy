/** Device queries (query.go): open a device information list, enumerate
    its members in index order, select, act, and destroy the list on every
    path once it was opened. */
module DeviceQuery {
  import opened Wrappers
  import opened Win32
  import opened Platform
  import SyscallDevice
  import DevSelect
  import WinDevice

  /** A query: a zero class GUID means every class; a nil selector
      (None) selects every device. */
  datatype Query = Query(classGuid: Guid, enumerator: string, flags: bv32, machine: string,
                         selector: Option<DevSelect.Selector>)

  /** The platform a query runs against: how it answers the open call, the
      replies of the enumeration of each list, and the registry properties
      of each member. */
  datatype Host = Host(open: OpenArgs -> HandleReply,
                       records: Handle -> seq<EnumReply>,
                       registry: (Handle, DevInfoData) -> PropertyId -> Property)

  /** What a query does, in order: an enumeration call for an index, an
      action on a member, the destruction of the list. */
  datatype Event =
    | Enumerate(index: nat)
    | Act(devices: Handle, info: DevInfoData)
    | Destroy(devices: Handle)

  /** The error a query returns, the actor's final state, and the events. */
  datatype Run<S> = Run(err: Option<Error>, state: S, trace: seq<Event>)

  /** A selection: what a selector says about a member of a list. */
  type Selection = DevInfoData -> (bool, Option<Error>)

  /** The class filter: none for the zero GUID, otherwise the class. */
  function ClassFilter(q: Query): (g: Option<Guid>)
    ensures g.None? <==> q.classGuid == ZeroGuid
    ensures g.Some? ==> g.value == q.classGuid
  {
    if q.classGuid != ZeroGuid then Some(q.classGuid) else None
  }

  /** The open call of Each, with no existing list to add to. */
  function Open(q: Query, host: Host): (Handle, Option<Error>) {
    SyscallDevice.GetClassDevsEx(host.open, ClassFilter(q), q.enumerator, q.flags, 0, q.machine)
  }

  function DeviceAt(host: Host, devices: Handle, info: DevInfoData): WinDevice.Device {
    WinDevice.Device(devices, info, host.registry(devices, info))
  }

  /** The query's selector applied to the members of one list. */
  function Selector(q: Query, host: Host, devices: Handle): Selection {
    info => DevSelect.Select(q.selector, DeviceAt(host, devices, info))
  }

  /** Member i is enumerated without error and selected without error. */
  predicate Accepted(replies: seq<EnumReply>, select: Selection, i: nat) {
    var (info, err) := SyscallDevice.EnumDeviceInfo(EnumDeviceInfoReply(replies, i));
    err.None? && select(info) == (true, None)
  }

  /** Member i is enumerated without error and its selection reports no
      error, whatever it decides. */
  predicate Passed(replies: seq<EnumReply>, select: Selection, i: nat) {
    var (info, err) := SyscallDevice.EnumDeviceInfo(EnumDeviceInfoReply(replies, i));
    err.None? && select(info).1.None?
  }

  /** The indices of the enumeration events, in order. */
  function Indices(t: seq<Event>): seq<nat> {
    if t == [] then []
    else (if t[0].Enumerate? then [t[0].index] else []) + Indices(t[1..])
  }

  /** The members acted on, in order. */
  function Acted(t: seq<Event>): seq<DevInfoData> {
    if t == [] then []
    else (if t[0].Act? then [t[0].info] else []) + Acted(t[1..])
  }

  /** The loop of Each from index i on, with actor state s: it stops at the
      first enumeration error (io.EOF ending it without error) or the first
      selection error; the index advances whether or not a member is
      selected, and the action runs on each selected member. */
  function Loop<S>(replies: seq<EnumReply>, select: Selection, act: (S, Handle, DevInfoData) -> S,
                   devices: Handle, i: nat, s: S): (r: Run<S>)
    requires i <= |replies|
    ensures r.trace != [] && r.trace[0] == Enumerate(i)
    decreases |replies| - i
  {
    var (info, err) := SyscallDevice.EnumDeviceInfo(EnumDeviceInfoReply(replies, i));
    if err == Some(Eof) then Run(None, s, [Enumerate(i)])
    else if err.Some? then Run(err, s, [Enumerate(i)])
    else
      var (matched, serr) := select(info);
      if serr.Some? then Run(serr, s, [Enumerate(i)])
      else if matched then
        var next := Loop(replies, select, act, devices, i + 1, act(s, devices, info));
        Run(next.err, next.state, [Enumerate(i), Act(devices, info)] + next.trace)
      else
        var next := Loop(replies, select, act, devices, i + 1, s);
        Run(next.err, next.state, [Enumerate(i)] + next.trace)
  }

  /** Query.Each as a value: when the open call fails its error is
      returned and nothing else happens; otherwise the loop runs and the
      list is destroyed afterwards, whatever the loop returned (the result
      of the destroy call is discarded). */
  function EachRun<S>(q: Query, host: Host, act: (S, Handle, DevInfoData) -> S, s0: S): Run<S> {
    var (devices, err) := Open(q, host);
    if err.Some? then Run(err, s0, [])
    else
      var r := Loop(host.records(devices), Selector(q, host, devices), act, devices, 0, s0);
      Run(r.err, r.state, r.trace + [Destroy(devices)])
  }

  /** One step of the loop over a member that is enumerated and not
      selected: an enumeration event, then the loop from the next index. */
  lemma LoopSkips<S>(replies: seq<EnumReply>, select: Selection, act: (S, Handle, DevInfoData) -> S,
                     devices: Handle, i: nat, s: S, done: seq<Event>)
    requires i <= |replies|
    requires SyscallDevice.EnumDeviceInfo(EnumDeviceInfoReply(replies, i)).1.None?
    requires select(SyscallDevice.EnumDeviceInfo(EnumDeviceInfoReply(replies, i)).0) == (false, None)
    ensures var r := Loop(replies, select, act, devices, i, s);
            var next := Loop(replies, select, act, devices, i + 1, s);
            r.err == next.err && r.state == next.state &&
            done + r.trace == (done + [Enumerate(i)]) + next.trace
  {
    var next := Loop(replies, select, act, devices, i + 1, s);
    assert Loop(replies, select, act, devices, i, s).trace == [Enumerate(i)] + next.trace;
    assert done + ([Enumerate(i)] + next.trace) == (done + [Enumerate(i)]) + next.trace;
  }

  /** One step of the loop over a selected member: an enumeration event
      and an action event, then the loop from the next index with the
      actor's new state. */
  lemma LoopActs<S>(replies: seq<EnumReply>, select: Selection, act: (S, Handle, DevInfoData) -> S,
                    devices: Handle, i: nat, s: S, done: seq<Event>)
    requires i <= |replies|
    requires SyscallDevice.EnumDeviceInfo(EnumDeviceInfoReply(replies, i)).1.None?
    requires select(SyscallDevice.EnumDeviceInfo(EnumDeviceInfoReply(replies, i)).0) == (true, None)
    ensures var info := SyscallDevice.EnumDeviceInfo(EnumDeviceInfoReply(replies, i)).0;
            var r := Loop(replies, select, act, devices, i, s);
            var next := Loop(replies, select, act, devices, i + 1, act(s, devices, info));
            r.err == next.err && r.state == next.state &&
            done + r.trace == ((done + [Enumerate(i)]) + [Act(devices, info)]) + next.trace
  {
    var info := SyscallDevice.EnumDeviceInfo(EnumDeviceInfoReply(replies, i)).0;
    var next := Loop(replies, select, act, devices, i + 1, act(s, devices, info));
    assert Loop(replies, select, act, devices, i, s).trace == [Enumerate(i), Act(devices, info)] + next.trace;
    assert done + ([Enumerate(i), Act(devices, info)] + next.trace) ==
           ((done + [Enumerate(i)]) + [Act(devices, info)]) + next.trace;
  }

  /** The enumeration loop of Each on an open list whose members reply
      `replies`: the selection is consulted only when the query has a
      selector (`filtered`), and without one it would select every member
      anyway. */
  method Walk<S>(replies: seq<EnumReply>, select: Selection, filtered: bool,
                 act: (S, Handle, DevInfoData) -> S, devices: Handle, s0: S)
    returns (err: Option<Error>, s: S, trace: seq<Event>)
    requires !filtered ==> forall info :: select(info) == (true, None)
    ensures Run(err, s, trace) == Loop(replies, select, act, devices, 0, s0)
  {
    ghost var expected := Loop(replies, select, act, devices, 0, s0);
    s, trace := s0, [];
    var i: nat := 0;
    while true
      invariant i <= |replies|
      invariant expected.trace == trace + Loop(replies, select, act, devices, i, s).trace
      invariant expected.err == Loop(replies, select, act, devices, i, s).err
      invariant expected.state == Loop(replies, select, act, devices, i, s).state
      decreases |replies| - i
    {
      ghost var done := trace;
      var enumerated := SyscallDevice.EnumDeviceInfo(EnumDeviceInfoReply(replies, i));
      var device := enumerated.0;
      trace := trace + [Enumerate(i)];
      if enumerated.1 == Some(Eof) {
        err := None;
        break;
      } else if enumerated.1.Some? {
        err := enumerated.1;
        break;
      }

      i := i + 1;

      if filtered {
        var selected := select(device);
        if selected.1.Some? {
          err := selected.1;
          break;
        }
        if !selected.0 {
          LoopSkips(replies, select, act, devices, i - 1, s, done);
          continue;
        }
      }

      LoopActs(replies, select, act, devices, i - 1, s, done);
      trace := trace + [Act(devices, device)];
      s := act(s, devices, device);
    }
  }

  /** Query.Each, with the action's captured state made explicit. */
  method Each<S>(q: Query, host: Host, act: (S, Handle, DevInfoData) -> S, s0: S)
    returns (err: Option<Error>, s: S, trace: seq<Event>)
    ensures Run(err, s, trace) == EachRun(q, host, act, s0)
  {
    var classPtr: Option<Guid> := None;
    if q.classGuid != ZeroGuid {
      classPtr := Some(q.classGuid);
    }
    var openResult := SyscallDevice.GetClassDevsEx(host.open, classPtr, q.enumerator, q.flags, 0, q.machine);
    var devices := openResult.0;
    if openResult.1.Some? {
      return openResult.1, s0, [];
    }

    var select := Selector(q, host, devices);
    if q.selector.None? {
      forall info | true
        ensures select(info) == (true, None)
      {
        NoSelectorSelectsAll(q, host, devices, info);
      }
    }
    err, s, trace := Walk(host.records(devices), select, q.selector.Some?, act, devices, s0);
    trace := trace + [Destroy(devices)];
  }

  /** The actor Count uses: one more device. */
  function Increment(total: nat, devices: Handle, info: DevInfoData): nat {
    total + 1
  }

  /** Query.Count: the number of action events of Each with a counting
      actor, returned together with Each's error (a partial count when the
      error cut the enumeration short). */
  method Count(q: Query, host: Host) returns (total: nat, err: Option<Error>)
    ensures err == EachRun<nat>(q, host, Increment, 0).err
    ensures total == |Acted(EachRun<nat>(q, host, Increment, 0).trace)|
  {
    var trace;
    err, total, trace := Each<nat>(q, host, Increment, 0);
    CountIsActions(q, host);
  }

  // ---------------------------------------------------------------------
  // Trace helpers
  // ---------------------------------------------------------------------

  lemma {:induction false} IndicesOfAppend(a: seq<Event>, b: seq<Event>)
    ensures Indices(a + b) == Indices(a) + Indices(b)
  {
    if a != [] {
      IndicesOfAppend(a[1..], b);
      assert (a + b)[0] == a[0];
      assert (a + b)[1..] == a[1..] + b;
      var head := if a[0].Enumerate? then [a[0].index] else [];
      calc {
        Indices(a + b);
        head + Indices(a[1..] + b);
        head + (Indices(a[1..]) + Indices(b));
        (head + Indices(a[1..])) + Indices(b);
      }
    } else {
      assert a + b == b;
    }
  }

  lemma {:induction false} ActedOfAppend(a: seq<Event>, b: seq<Event>)
    ensures Acted(a + b) == Acted(a) + Acted(b)
  {
    if a != [] {
      ActedOfAppend(a[1..], b);
      assert (a + b)[0] == a[0];
      assert (a + b)[1..] == a[1..] + b;
      var head := if a[0].Act? then [a[0].info] else [];
      calc {
        Acted(a + b);
        head + Acted(a[1..] + b);
        head + (Acted(a[1..]) + Acted(b));
        (head + Acted(a[1..])) + Acted(b);
      }
    } else {
      assert a + b == b;
    }
  }

  // ---------------------------------------------------------------------
  // Properties of the loop
  // ---------------------------------------------------------------------

  /** The enumeration indices of the loop are i, i+1, i+2, ... in order,
      and the loop never destroys the list itself. */
  lemma {:induction false} LoopIndicesAscend<S>(replies: seq<EnumReply>, select: Selection,
                                                act: (S, Handle, DevInfoData) -> S, devices: Handle, i: nat, s: S)
    requires i <= |replies|
    ensures var t := Loop(replies, select, act, devices, i, s).trace;
            |Indices(t)| >= 1 && forall k :: 0 <= k < |Indices(t)| ==> Indices(t)[k] == i + k
    ensures var t := Loop(replies, select, act, devices, i, s).trace;
            forall k :: 0 <= k < |t| ==> !t[k].Destroy?
    decreases |replies| - i
  {
    var (info, err) := SyscallDevice.EnumDeviceInfo(EnumDeviceInfoReply(replies, i));
    var t := Loop(replies, select, act, devices, i, s).trace;
    if err.None? && select(info).1.None? {
      var s' := if select(info).0 then act(s, devices, info) else s;
      var events := if select(info).0 then [Enumerate(i), Act(devices, info)] else [Enumerate(i)];
      LoopIndicesAscend(replies, select, act, devices, i + 1, s');
      var rest := Loop(replies, select, act, devices, i + 1, s').trace;
      assert t == events + rest;
      IndicesOfAppend(events, rest);
      assert Indices(events) == [i];
    } else {
      assert t == [Enumerate(i)];
      assert Indices(t) == [i];
    }
  }

  /** The loop ends with an enumeration whose outcome decides the error:
      io.EOF gives no error, any other enumeration error is returned, and a
      member enumerated without error ends the loop only through its
      selection error, which is returned. Every earlier member passed. */
  lemma {:induction false} LoopEnds<S>(replies: seq<EnumReply>, select: Selection,
                                       act: (S, Handle, DevInfoData) -> S, devices: Handle, i: nat, s: S)
    requires i <= |replies|
    ensures var r := Loop(replies, select, act, devices, i, s);
            var last := r.trace[|r.trace| - 1];
            last.Enumerate? &&
            var (info, e) := SyscallDevice.EnumDeviceInfo(EnumDeviceInfoReply(replies, last.index));
            (e == Some(Eof) ==> r.err == None) &&
            (e.Some? && e != Some(Eof) ==> r.err == e) &&
            (e.None? ==> r.err.Some? && r.err == select(info).1)
    ensures var t := Loop(replies, select, act, devices, i, s).trace;
            forall k :: 0 <= k < |t| - 1 && t[k].Enumerate? ==> Passed(replies, select, t[k].index)
    decreases |replies| - i
  {
    var (info, err) := SyscallDevice.EnumDeviceInfo(EnumDeviceInfoReply(replies, i));
    if err.None? && select(info).1.None? {
      var s' := if select(info).0 then act(s, devices, info) else s;
      var events := if select(info).0 then [Enumerate(i), Act(devices, info)] else [Enumerate(i)];
      LoopEnds(replies, select, act, devices, i + 1, s');
      var rest := Loop(replies, select, act, devices, i + 1, s').trace;
      var t := Loop(replies, select, act, devices, i, s).trace;
      assert t == events + rest;
      assert t[|t| - 1] == rest[|rest| - 1];
      forall k | 0 <= k < |t| - 1 && t[k].Enumerate?
        ensures Passed(replies, select, t[k].index)
      {
        if k >= |events| {
          assert t[k] == rest[k - |events|];
        }
      }
    }
  }

  /** Every action in t follows the enumeration of an accepted member and
      acts on that member. */
  predicate ActionsFollow(t: seq<Event>, replies: seq<EnumReply>, select: Selection, devices: Handle) {
    forall k :: 0 < k < |t| && t[k].Act? ==>
      t[k - 1].Enumerate? && Accepted(replies, select, t[k - 1].index) &&
      t[k] == Act(devices, EnumDeviceInfoReply(replies, t[k - 1].index).info)
  }

  /** Every enumeration of an accepted member in t is followed by the
      action on that member. */
  predicate AcceptedActed(t: seq<Event>, replies: seq<EnumReply>, select: Selection, devices: Handle) {
    forall k :: 0 <= k < |t| && t[k].Enumerate? && Accepted(replies, select, t[k].index) ==>
      k + 1 < |t| && t[k + 1] == Act(devices, EnumDeviceInfoReply(replies, t[k].index).info)
  }

  /** Every action of the loop follows the enumeration of an accepted
      member and acts on that member. */
  lemma {:induction false} ActionsFollowAccepted<S>(replies: seq<EnumReply>, select: Selection,
                                                    act: (S, Handle, DevInfoData) -> S, devices: Handle, i: nat, s: S)
    requires i <= |replies|
    ensures ActionsFollow(Loop(replies, select, act, devices, i, s).trace, replies, select, devices)
    decreases |replies| - i
  {
    var (info, err) := SyscallDevice.EnumDeviceInfo(EnumDeviceInfoReply(replies, i));
    var t := Loop(replies, select, act, devices, i, s).trace;
    if err.None? && select(info).1.None? {
      var s' := if select(info).0 then act(s, devices, info) else s;
      var events := if select(info).0 then [Enumerate(i), Act(devices, info)] else [Enumerate(i)];
      ActionsFollowAccepted(replies, select, act, devices, i + 1, s');
      var rest := Loop(replies, select, act, devices, i + 1, s').trace;
      assert t == events + rest;
      assert rest[0].Enumerate?;
      forall k | 0 < k < |t| && t[k].Act?
        ensures t[k - 1].Enumerate? && Accepted(replies, select, t[k - 1].index) &&
                t[k] == Act(devices, EnumDeviceInfoReply(replies, t[k - 1].index).info)
      {
        if k >= |events| {
          var j := k - |events|;
          assert t[k] == rest[j];
          assert j > 0;
          assert t[k - 1] == rest[j - 1];
        } else {
          assert k == 1 && select(info).0;
          assert t[0] == Enumerate(i) && t[1] == Act(devices, info);
          assert info == EnumDeviceInfoReply(replies, i).info;
          assert Accepted(replies, select, i);
        }
      }
    } else {
      assert t == [Enumerate(i)];
    }
  }

  /** Every enumeration of an accepted member is followed by the action on
      that member. */
  lemma {:induction false} AcceptedAreActedOn<S>(replies: seq<EnumReply>, select: Selection,
                                                 act: (S, Handle, DevInfoData) -> S, devices: Handle, i: nat, s: S)
    requires i <= |replies|
    ensures AcceptedActed(Loop(replies, select, act, devices, i, s).trace, replies, select, devices)
    decreases |replies| - i
  {
    var (info, err) := SyscallDevice.EnumDeviceInfo(EnumDeviceInfoReply(replies, i));
    var t := Loop(replies, select, act, devices, i, s).trace;
    if err.None? && select(info).1.None? {
      var s' := if select(info).0 then act(s, devices, info) else s;
      var events := if select(info).0 then [Enumerate(i), Act(devices, info)] else [Enumerate(i)];
      AcceptedAreActedOn(replies, select, act, devices, i + 1, s');
      var rest := Loop(replies, select, act, devices, i + 1, s').trace;
      assert t == events + rest;
      forall k | 0 <= k < |t| && t[k].Enumerate? && Accepted(replies, select, t[k].index)
        ensures k + 1 < |t| && t[k + 1] == Act(devices, EnumDeviceInfoReply(replies, t[k].index).info)
      {
        if k >= |events| {
          var j := k - |events|;
          assert t[k] == rest[j];
          assert rest[j].Enumerate? && Accepted(replies, select, rest[j].index);
          assert j + 1 < |rest|;
          assert t[k + 1] == rest[j + 1];
        } else if k == 0 {
          assert t[0] == Enumerate(i);
          assert select(info).0;
          assert t[1] == Act(devices, info);
          assert info == EnumDeviceInfoReply(replies, i).info;
        }
      }
    } else {
      assert t == [Enumerate(i)];
      if Accepted(replies, select, i) {
        assert false;
      }
    }
  }

  /** With a counting actor, the final state of the loop is its starting
      count plus the number of actions. */
  lemma {:induction false} LoopCounts(replies: seq<EnumReply>, select: Selection, devices: Handle, i: nat, n: nat)
    requires i <= |replies|
    ensures var r := Loop<nat>(replies, select, Increment, devices, i, n);
            r.state == n + |Acted(r.trace)|
    decreases |replies| - i
  {
    var (info, err) := SyscallDevice.EnumDeviceInfo(EnumDeviceInfoReply(replies, i));
    if err.None? && select(info).1.None? {
      var matched := select(info).0;
      var n' := if matched then n + 1 else n;
      var events := if matched then [Enumerate(i), Act(devices, info)] else [Enumerate(i)];
      LoopCounts(replies, select, devices, i + 1, n');
      var rest := Loop<nat>(replies, select, Increment, devices, i + 1, n').trace;
      assert Loop<nat>(replies, select, Increment, devices, i, n).trace == events + rest;
      ActedOfAppend(events, rest);
      assert Acted(events) == if matched then [info] else [];
    } else {
      assert Acted([Enumerate(i)]) == [];
    }
  }

  /** Every member of the list enumerates without error. */
  predicate AllSucceed(replies: seq<EnumReply>) {
    forall j :: 0 <= j < |replies| ==> replies[j].r0 != 0
  }

  /** The members a list reports, in index order. */
  function Members(replies: seq<EnumReply>): seq<DevInfoData> {
    if replies == [] then [] else [replies[0].info] + Members(replies[1..])
  }

  /** When every member enumerates and is selected, the action runs on
      every member from index i on, in index order, and the loop ends
      without error. */
  lemma {:induction false} SelectAllActsOnAll<S>(replies: seq<EnumReply>, select: Selection,
                                                 act: (S, Handle, DevInfoData) -> S, devices: Handle, i: nat, s: S)
    requires AllSucceed(replies) && i <= |replies|
    requires forall j :: 0 <= j < |replies| ==> select(replies[j].info) == (true, None)
    ensures Loop(replies, select, act, devices, i, s).err == None
    ensures Acted(Loop(replies, select, act, devices, i, s).trace) == Members(replies[i..])
    decreases |replies| - i
  {
    var t := Loop(replies, select, act, devices, i, s).trace;
    if i < |replies| {
      var info := replies[i].info;
      var s' := act(s, devices, info);
      SelectAllActsOnAll(replies, select, act, devices, i + 1, s');
      var rest := Loop(replies, select, act, devices, i + 1, s').trace;
      assert t == [Enumerate(i), Act(devices, info)] + rest;
      ActedOfAppend([Enumerate(i), Act(devices, info)], rest);
      assert Acted([Enumerate(i), Act(devices, info)]) == [info];
      assert replies[i..][1..] == replies[i + 1..];
    } else {
      assert t == [Enumerate(i)];
      assert Acted(t) == [];
    }
  }

  // ---------------------------------------------------------------------
  // Properties of the query
  // ---------------------------------------------------------------------

  /** A failed open returns its error, enumerates nothing and destroys
      nothing. */
  lemma OpenFailureDoesNothing<S>(q: Query, host: Host, act: (S, Handle, DevInfoData) -> S, s0: S)
    requires Open(q, host).1.Some?
    ensures EachRun(q, host, act, s0).err == Open(q, host).1
    ensures EachRun(q, host, act, s0).trace == []
    ensures EachRun(q, host, act, s0).state == s0
  {
  }

  /** Once the list is open it is destroyed exactly once, as the last
      event, and the enumeration indices are 0, 1, 2, ... in order. */
  lemma DestroyOnceAtEnd<S>(q: Query, host: Host, act: (S, Handle, DevInfoData) -> S, s0: S)
    requires Open(q, host).1.None?
    ensures var t := EachRun(q, host, act, s0).trace;
            t != [] && t[|t| - 1] == Destroy(Open(q, host).0) &&
            forall k :: 0 <= k < |t| - 1 ==> !t[k].Destroy?
    ensures var t := EachRun(q, host, act, s0).trace;
            forall k :: 0 <= k < |Indices(t)| ==> Indices(t)[k] == k
  {
    var devices := Open(q, host).0;
    var l := Loop(host.records(devices), Selector(q, host, devices), act, devices, 0, s0);
    LoopIndicesAscend(host.records(devices), Selector(q, host, devices), act, devices, 0, s0);
    IndicesOfAppend(l.trace, [Destroy(devices)]);
    assert Indices([Destroy(devices)]) == [];
  }

  /** The zero class GUID opens the list for every class; any other GUID
      opens it for that class with the caller's flags untouched. */
  lemma ZeroClassOpensAllClasses(q: Query)
    ensures q.classGuid == ZeroGuid ==>
              SyscallDevice.ClassDevsFlags(ClassFilter(q), q.flags) & SyscallDevice.AllClasses == SyscallDevice.AllClasses
    ensures q.classGuid != ZeroGuid ==>
              ClassFilter(q) == Some(q.classGuid) && SyscallDevice.ClassDevsFlags(ClassFilter(q), q.flags) == q.flags
  {
  }

  /** The query's selection is the selector's answer for the member; with
      no selector every member is selected. */
  lemma NoSelectorSelectsAll(q: Query, host: Host, devices: Handle, info: DevInfoData)
    requires q.selector.None?
    ensures Selector(q, host, devices)(info) == (true, None)
  {
  }

  /** With no selector and a list whose members all enumerate, Each acts
      on every member in index order and returns no error. */
  lemma NoSelectorActsOnAll<S>(q: Query, host: Host, act: (S, Handle, DevInfoData) -> S, s0: S)
    requires q.selector.None? && Open(q, host).1.None?
    requires AllSucceed(host.records(Open(q, host).0))
    ensures EachRun(q, host, act, s0).err == None
    ensures Acted(EachRun(q, host, act, s0).trace) == Members(host.records(Open(q, host).0))
  {
    var devices := Open(q, host).0;
    var replies := host.records(devices);
    var select := Selector(q, host, devices);
    forall j | 0 <= j < |replies|
      ensures select(replies[j].info) == (true, None)
    {
      NoSelectorSelectsAll(q, host, devices, replies[j].info);
    }
    SelectAllActsOnAll(replies, select, act, devices, 0, s0);
    var l := Loop(replies, select, act, devices, 0, s0);
    ActedOfAppend(l.trace, [Destroy(devices)]);
    assert Acted([Destroy(devices)]) == [];
    assert replies[0..] == replies;
  }

  /** Count equals the number of actions Each performs. */
  lemma CountIsActions(q: Query, host: Host)
    ensures EachRun<nat>(q, host, Increment, 0).state == |Acted(EachRun<nat>(q, host, Increment, 0).trace)|
  {
    var (devices, err) := Open(q, host);
    if err.None? {
      LoopCounts(host.records(devices), Selector(q, host, devices), devices, 0, 0);
      var r := Loop<nat>(host.records(devices), Selector(q, host, devices), Increment, devices, 0, 0);
      ActedOfAppend(r.trace, [Destroy(devices)]);
      assert Acted([Destroy(devices)]) == [];
    }
  }
}
