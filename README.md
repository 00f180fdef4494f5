# windevice in Dafny

A model of the core of `windevice`, a Go wrapper over the Windows SetupAPI
device-configuration functions, with proofs of what the wrapper promises.

What is modelled:

- String matchers (`strmatch`). These are exact and case-folded equality,
  plain and case-insensitive substring search, and the `All`/`Any`
  combinators. A nil matcher accepts every string, but only through
  `Matcher.Match`.
- Device selectors (`devselect`). These are the `Class`, `Description`,
  `FriendlyName` and `ID` field selectors and the `All`/`Any` combinators,
  each returning a decision and an error.
- The SetupAPI wrappers (`setupapi`):
  - the three-round growable-buffer retrieval of a device registry
    property;
  - the typed decoders for `REG_SZ`, `REG_EXPAND_SZ`, `REG_MULTI_SZ` and
    `REG_DWORD`;
  - the class-GUID lookup;
  - the mapping of each call's return value and last error to a Go error;
  - the flag adjustment made before a device list is opened.
- The device accessors and the removal protocol (`device.go`).
- The query loop (`query.go`): it opens a list, enumerates it in index
  order, selects and acts on members, then destroys the list.
- The extended installation flags (`diflagex`): the subset test and the
  rendering through a format table.

The platform is never called. Each SetupAPI entry point is an oracle whose
answer is an input, so every property holds for every answer the oracle
may give, within the limits listed under "Left out". Examples of such oracles:

- the state of a registry property at the k-th call (`Platform.Property`);
- the replies of an enumeration (`Platform.EnumDeviceInfoReply`);
- the three installer calls of a removal (`WinDevice.Installer`).

Where Windows' documented rules fix the shape of an answer, a function in
`Platform` applies them. For example, a value is copied only when it fits
the caller's buffer; otherwise the call fails with
`ERROR_INSUFFICIENT_BUFFER` and reports the size it needs.

The modules are:

- `Win32`: shared types, the Go errors, and the last-error mapping.
- `Utf16`: the assumed string decoding.
- `Platform`: the oracles.
- `SyscallProperty`: setupapi/syscall_property.go.
- `SyscallDevice`: setupapi/syscall_device.go.
- `Syscall`: the parts of setupapi/syscall.go that have no twin elsewhere.
- `StrMatch`, `DevSelect`, `DiFlagEx`: the packages of the same names.
- `WinDevice`: device.go.
- `DeviceQuery`: query.go.

Go closures are values of a datatype: `StrMatch.Matcher` and
`DevSelect.Selector`, with `Apply` as the call.

Loops and buffers that the Go code changes step by step are imperative
methods, each proved equal to a specification function:

- `SyscallProperty.GetDeviceRegistryProperty` and `Syscall.InlineRetrieval`
  use real arrays and are proved equal to `SyscallProperty.Retrieval`.
- `Syscall.ClassGuidsRetry` is proved equal to `Syscall.Lookup`, and
  `Syscall.SetupDiClassGuidsFromNameEx` to `Syscall.ClassGuidsFromName`.
- `DiFlagEx.Join` is proved equal to `DiFlagEx.Joined`.
- `DeviceQuery.Walk` is proved equal to `DeviceQuery.Loop`, and
  `DeviceQuery.Each` to `DeviceQuery.EachRun`.
- `WinDevice.HardwareID` and `WinDevice.CompatibleID` share their append loop, `WinDevice.ConvertIds`.

The trace of platform calls or events is returned as a real output.

## Model

| member | source | states |
|---|---|---|
| Win32.LastError | setupapi/syscall_device.go:57-63 | A failed call never yields a nil error or `Errno(0)`. The error is EINVAL exactly when the last-error code is 0. |
| StrMatch.Match | strmatch/matcher.go:7-12 | A nil matcher accepts every string, "" included. A non-nil matcher's result is exactly its own call on the value. |
| StrMatch.EqualIsExact | strmatch/equal.go:7-11 | `Equal(v)` accepts `w` iff `w == v`, so it is case-sensitive ("ABC" rejects "abc"). |
| StrMatch.EqualFoldIsCharwise | strmatch/equal.go:15-19 | `EqualFold(v)` accepts `w` iff they have equal length and equal characters after lowering. |
| StrMatch.EqualFoldIsSymmetric | strmatch/equal.go:17 | `EqualFold(v)(w) == EqualFold(w)(v)`. |
| StrMatch.EqualImpliesEqualFold | strmatch/equal.go:9-17 | Whatever `Equal(v)` accepts, `EqualFold(v)` accepts. |
| StrMatch.EqualFoldExamples | strmatch/equal.go:15-19 | `EqualFold("ABC")` accepts "abc", "Abc" and "ABC" and rejects "abcd". |
| StrMatch.StringsContainsIsSubstring | strmatch/contains.go:9 | The search used by `strings.Contains` succeeds iff the value occurs at some index. |
| StrMatch.ContainsIsSubstring | strmatch/contains.go:7-11 | `Contains(v)` accepts `w` iff `v` is a substring of `w`. |
| StrMatch.ContainsEmptyAndSelf | strmatch/contains.go:9 | `Contains("")` accepts every string, and `Contains(v)` accepts `v`. |
| StrMatch.ContainsExamples | strmatch/contains.go:7-11 | `Contains("bc")` accepts "abcd" and rejects "xyz". |
| StrMatch.ContainsInsensitive | strmatch/contains.go:15-16 | The value is lowered once, when the matcher is built, and kept. |
| StrMatch.ContainsInsensitiveIsLoweredSubstring | strmatch/contains.go:15-20 | `ContainsInsensitive(v)` accepts `w` iff `lower(v)` is a substring of `lower(w)`. |
| StrMatch.ToLower | strmatch/contains.go:16-18 | Lowering keeps the length and lowers each character on its own. |
| StrMatch.ToLowerSlice | strmatch/contains.go:18 | Lowering commutes with taking a slice. |
| StrMatch.ContainsImpliesContainsInsensitive | strmatch/contains.go:9-18 | Whatever `Contains(v)` accepts, `ContainsInsensitive(v)` accepts. |
| StrMatch.AllMeansEvery | strmatch/all.go:4-13 | `All(ms)` accepts `s` iff every submatcher accepts `s`. |
| StrMatch.AllEmptyAndSingle | strmatch/all.go:4-13 | `All()` accepts everything, and `All(m)` decides as `m` does. |
| StrMatch.AllIgnoresOrder | strmatch/all.go:6-11 | Reordering the submatchers does not change what `All` decides. |
| StrMatch.AllCalls | strmatch/all.go:6-11 | The loop calls submatchers in order and stops right after the first rejection. Every earlier submatcher accepted, and the decision depends only on the ones called. |
| StrMatch.AnyMeansSome | strmatch/any.go:4-13 | `Any(ms)` accepts `s` iff some submatcher accepts `s`. |
| StrMatch.AnyEmptyAndSingle | strmatch/any.go:4-13 | `Any()` accepts nothing, and `Any(m)` decides as `m` does. |
| StrMatch.AnyIgnoresOrder | strmatch/any.go:6-11 | Reordering the submatchers does not change what `Any` decides. |
| StrMatch.AnyCalls | strmatch/any.go:6-11 | The loop calls submatchers in order and stops right after the first acceptance. Every earlier submatcher rejected, and the decision depends only on the ones called. |
| DevSelect.Select | devselect/selector.go:11-16 | A nil selector returns `(true, nil)` for every device. A non-nil selector's result is passed through unchanged. |
| DevSelect.Apply | devselect/selector.go:8 | Every selector built by this package's constructors pairs an error with `false`. |
| DevSelect.FieldSelect | devselect/class.go:9-17 | A field fetch error other than `ErrInvalidData` is returned with `false`. |
| DevSelect.IdSelect | devselect/id.go:6-19 | Every hardware-ID fetch error is returned with `false`. |
| DevSelect.AllSelect | devselect/all.go:6-19 | An error from `All` always comes with `false`. |
| DevSelect.AnySelect | devselect/any.go:6-19 | An error from `Any` always comes with `false`. |
| DevSelect.AbsentFieldIsEmpty | devselect/class.go:11-15 | For Class, Description and FriendlyName, an absent property (`ErrInvalidData`) is no error: the matcher decides on "". |
| DevSelect.FieldErrorsPropagate | devselect/description.go:11-14 | For the three field selectors, any other fetch error `e` gives `(false, e)`. |
| DevSelect.FieldSuccess | devselect/friendlyname.go:10-17 | A fetched value goes to the matcher, and the result has no error. FriendlyName consults only the friendly name. |
| DevSelect.IdPropagatesAbsent | devselect/id.go:8-11 | `ID` returns `(false, ErrInvalidData)` for an absent hardware-ID list, while `Class` treats the same absence as "". |
| DevSelect.IdsMatchMeansSome | devselect/id.go:12-17 | The ID loop accepts iff some hardware ID satisfies the matcher. |
| DevSelect.IdMeansSome | devselect/id.go:6-19 | `ID` returns `(true, nil)` iff the IDs are read and one matches. An empty list gives `(false, nil)`, even with a nil matcher. |
| DevSelect.IdsMatchStopsAt | devselect/id.go:13-15 | The loop stops at the first matching ID; later IDs play no part. |
| DevSelect.IdsMatchIgnoresOrder | devselect/id.go:12-17 | Reordering the IDs does not change the decision. |
| DevSelect.EmptyCombinators | devselect/all.go:17 | `All()` gives `(true, nil)` and `Any()` gives `(false, nil)`. |
| DevSelect.AllMeansEvery | devselect/all.go:8-17 | `All` gives `(true, nil)` iff every selector gives `(true, nil)`. |
| DevSelect.AllStopsAt | devselect/all.go:8-16 | The first selector that does not give `(true, nil)` decides: `(false, its error)`. The result is the same with every later selector removed, so their errors never surface. |
| DevSelect.AnyMeansNone | devselect/any.go:8-17 | `Any` gives `(false, nil)` iff every selector gives `(false, nil)`. |
| DevSelect.AnyStopsAt | devselect/any.go:8-16 | The first selector that does not give `(false, nil)` decides, and its result is returned. An earlier error wins over a later match. |
| SyscallProperty.GuardedCall | setupapi/syscall_property.go:95-122 | An empty buffer gives `ErrEmptyBuffer` with no platform call. Otherwise there is exactly one call, whose failure becomes the last error. |
| SyscallProperty.Retrieval | setupapi/syscall_property.go:76-93 | At most 3 calls. No call iff the first buffer is empty, and the first call uses the given buffer. The data is nil on every error. |
| SyscallProperty.RetrievalRetries | setupapi/syscall_property.go:79-88 | Each retry follows an insufficient-buffer report and uses a buffer of exactly the reported size. |
| SyscallProperty.RetrievalSucceeds | setupapi/syscall_property.go:81-85 | On success the data is what the last call copied, within its buffer, with that call's type. |
| SyscallProperty.RetrievalFails | setupapi/syscall_property.go:79-92 | `ERROR_INSUFFICIENT_BUFFER` iff every round reported an insufficient buffer. `ErrEmptyBuffer` only for an empty first buffer or a reported size of 0. Any other error is the last call's own. |
| SyscallProperty.CallRegistryProperty | setupapi/syscall_property.go:95-122 | On a real array: the guard and the single call. On success the value is copied to the front of the buffer and the rest is left as it was. |
| SyscallProperty.GetDeviceRegistryProperty | setupapi/syscall_property.go:76-93 | The loop that reallocates the buffer returns exactly the retrieval's type, data and error. |
| SyscallProperty.RetrievalGrowsOnce | setupapi/syscall_property.go:86-87 | A stable value larger than the first buffer is read with two calls, the second with a buffer of exactly its size. |
| SyscallProperty.RetrievalGivesUpAfterThreeRounds | setupapi/syscall_property.go:79-92 | Three insufficient-buffer reports give `ERROR_INSUFFICIENT_BUFFER` and nil data after exactly three calls. |
| SyscallProperty.RetrievalGivesUpOnGrowingValue | setupapi/syscall_property.go:79-92 | A value that keeps growing between calls also exhausts the three rounds. |
| SyscallProperty.RetrievalZeroSizeReport | setupapi/syscall_property.go:86-87 | An insufficient-buffer report of size 0 ends the retry with `ErrEmptyBuffer` after one call. |
| SyscallProperty.StableValueIsRead | setupapi/syscall_property.go:76-93 | A value that does not change is read in full, whatever its size, with at most two calls. |
| SyscallProperty.DecodeString | setupapi/syscall_property.go:22-27 | No error iff the type is `REG_SZ` or `REG_EXPAND_SZ`. Any other type is an error naming it, and the value is "" on every error. |
| SyscallProperty.DecodeStrings | setupapi/syscall_property.go:39-46 | The SZ types give a one-element list and `REG_MULTI_SZ` is split. Any other type is an error naming it, and the list is nil on every error. |
| SyscallProperty.DecodeUint32 | setupapi/syscall_property.go:57-68 | A length other than 4 is refused before the type is looked at. Only the two DWORD types decode, and the value is 0 on every error. |
| SyscallProperty.StringRoundTrip | setupapi/syscall_property.go:14-28 | A stable SZ value holding a NUL-free string reads back as that string, and as a one-element list. |
| SyscallProperty.MultiStringRoundTrip | setupapi/syscall_property.go:32-47 | A stable `REG_MULTI_SZ` value reads back as exactly its strings, in order. |
| SyscallProperty.LittleEndianBytes | setupapi/syscall_property.go:63 | Encoding a DWORD gives exactly 4 bytes. |
| SyscallProperty.LittleEndianRoundTrip | setupapi/syscall_property.go:62-65 | Little-endian decoding inverts little-endian encoding. Big-endian decoding inverts the reversed bytes. |
| SyscallProperty.Uint32RoundTrip | setupapi/syscall_property.go:50-69 | A DWORD stored in either byte order reads back as the number it encodes. |
| SyscallProperty.Uint32Examples | setupapi/syscall_property.go:57-68 | Bytes 01 00 00 00 read as 1 (LE) and 16777216 (BE). Three bytes are refused by their length whatever their type. |
| Utf16.StringRoundTrip | setupapi/syscall_property.go:24 | The assumed decoder reads a NUL-free string back from its UTF-16LE encoding. |
| Utf16.MultiStringRoundTrip | setupapi/syscall_property.go:43 | The assumed splitter reads non-empty NUL-free strings back from their multi-string encoding. |
| SyscallDevice.ClassDevsFlags | setupapi/syscall_device.go:40-42 | With no class GUID the AllClasses bit is set and every other bit is kept. With a GUID the flags are unchanged. |
| SyscallDevice.GetClassDevsEx | setupapi/syscall_device.go:23-65 | A NUL in a non-empty enumerator or machine name gives `(InvalidHandle, EINVAL)` before the call. Otherwise the platform's handle is returned; there is an error iff the handle is invalid, and that error is the last error (EINVAL for code 0). |
| SyscallDevice.CreateDeviceInfoList | setupapi/syscall_device.go:71-87 | The handle is passed through, with an error iff it is invalid; that error is the last error. |
| SyscallDevice.DestroyDeviceInfoList | setupapi/syscall_device.go:93-107 | Nil iff the call succeeds. On failure the error is `Errno(e)`, or EINVAL iff `e == 0`. |
| SyscallDevice.EnumDeviceInfo | setupapi/syscall_device.go:115-137 | Nil iff the call succeeds. On failure code 259 gives `io.EOF`, code 0 gives EINVAL, and any other code its `Errno`. |
| Syscall.SetupDiGetDeviceRegistryProperty | setupapi/syscall.go:234-261 | An empty buffer gives `ErrEmptyBuffer`. Otherwise there is an error iff the call fails (the last error), and on success the value is at the front of the buffer and the rest is left as it was. |
| Syscall.InlineRetrieval | setupapi/syscall.go:157-181 | The retry loop written inline performs exactly the retrieval of `SyscallProperty.Retrieval` from a 2 KiB buffer. |
| Syscall.GetDeviceRegistryString | setupapi/syscall.go:156-189 | The older getter returns what the newer `GetDeviceRegistryString` returns, for every platform. |
| Syscall.GetDeviceRegistryStrings | setupapi/syscall.go:193-228 | The older getter returns what the newer `GetDeviceRegistryStrings` returns, for every platform. |
| Syscall.Zeros | setupapi/syscall.go:281 | A freshly made GUID slice holds n zero GUIDs. |
| Syscall.Lookup | setupapi/syscall.go:283-301 | 1 to 3 calls, the first with the given size. The GUIDs are nil on every error. |
| Syscall.LookupRetries | setupapi/syscall.go:285-295 | Each retry follows an insufficient-buffer report and uses exactly the reported count. |
| Syscall.LookupLastCall | setupapi/syscall.go:285-287 | The last call is the platform's reply in its own round. |
| Syscall.LookupSucceeds | setupapi/syscall.go:288-292 | No error iff the last call succeeds. A count of 0 gives nil; any other success returns the whole buffer, untruncated. |
| Syscall.LookupErrors | setupapi/syscall.go:294-301 | `ERROR_INSUFFICIENT_BUFFER` iff every round reported an insufficient buffer. Any other error is the last call's own, and ends the lookup at once. |
| Syscall.ClassGuidsRetry | setupapi/syscall.go:281-301 | The loop that reallocates the GUID slice returns exactly `Lookup`'s GUIDs and error. |
| Syscall.ClassGuidsFromName | setupapi/syscall.go:267-279 | A NUL in the class name, or in a non-empty machine name, gives `(nil, EINVAL)`. The GUIDs are nil on every error. |
| Syscall.CallClassGuids | setupapi/syscall.go:304-326 | On a real array: the returned count and error are the call's, and on success the GUIDs overwrite the front of the buffer. |
| Syscall.SetupDiClassGuidsFromNameEx | setupapi/syscall.go:267-302 | The name checks followed by the retry loop return exactly `ClassGuidsFromName`. |
| Syscall.ZeroCountIsNil | setupapi/syscall.go:288-291 | A class with no GUIDs gives `(nil, nil)` after one call. |
| Syscall.SingleGuidFound | setupapi/syscall.go:281-292 | A single GUID is found with the first, one-GUID buffer. |
| Syscall.StableListIsRead | setupapi/syscall.go:294-295 | A stable list of several GUIDs is read with two calls, the second with exactly its length. |
| Syscall.ShrunkListIsPadded | setupapi/syscall.go:292 | A list that shrinks from 3 to 2 GUIDs between calls is returned as 3 entries, the last a zero GUID. |
| Syscall.GivesUpAfterThreeRounds | setupapi/syscall.go:296-301 | Three insufficient-buffer reports give `(nil, ERROR_INSUFFICIENT_BUFFER)` after exactly three calls. |
| Syscall.OtherErrorIsImmediate | setupapi/syscall.go:296-297 | Any other failure gives `(nil, that error)` after one call. |
| DiFlagEx.MatchIsUnion | diflagex/value.go:10-12 | `v.Match(c)` iff adding `c`'s bits to `v` changes nothing, i.e. every bit of `c` is in `v`. |
| DiFlagEx.MatchKeepsFlags | diflagex/value.go:10-12 | A bit shared with `c` is shared with every `v` that matches `c`. |
| DiFlagEx.MatchIsPreorder | diflagex/value.go:11 | `v.Match(0)` and `v.Match(v)` hold, and Match is transitive. |
| DiFlagEx.MatchSingleFlag | diflagex/value.go:29-30 | For a single bit, Match tests that bit. |
| DiFlagEx.Bit | diflagex/value.go:29 | Every bit flag is non-zero. |
| DiFlagEx.JoinStrings | diflagex/value.go:37 | Joining no names gives "", and joining one name gives that name. |
| DiFlagEx.FlagName | diflagex/value.go:29-33 | Each bit contributes at most one name. |
| DiFlagEx.FlagNameIsNamed | diflagex/value.go:29-33 | A bit contributes a name iff it is set and the table names its flag so. |
| DiFlagEx.NamedFlags | diflagex/value.go:27-35 | At most one name per bit examined. |
| DiFlagEx.Joined | diflagex/value.go:22-38 | An exact table entry for `v` wins whatever the separator. Otherwise the result is the names of the set bits, joined by `sep`. |
| DiFlagEx.Join | diflagex/value.go:22-38 | The 32-bit loop returns exactly `Joined`. |
| DiFlagEx.String | diflagex/value.go:16-18 | `String` renders with a vertical bar as separator and the `FormatGo` table, exactly as `Join` does. |
| DiFlagEx.NamedFlagsMembers | diflagex/value.go:27-35 | A name is listed iff it names a set bit that has an entry. |
| DiFlagEx.UnnamedFlagsRenderEmpty | diflagex/value.go:23-37 | With no exact entry and no named set bit, the rendering is "". |
| DiFlagEx.NoNamedFlags | diflagex/value.go:27-35 | With no named set bit, no names are collected. |
| DiFlagEx.NamedFlagsTail | diflagex/value.go:28 | Bits without entries above n add nothing to the names. |
| DiFlagEx.JoinExamples | diflagex/value.go:27-37 | With names for bits 0 and 1, the value 3 renders as "A,B", in ascending bit order. |
| DiFlagEx.JoinDropsUnnamedExample | diflagex/value.go:29-33 | With names for bits 0 and 1 only, 7 renders exactly as 3 for every separator: the unnamed bit 2 is dropped. |
| DiFlagEx.JoinExactAndEmptyExamples | diflagex/value.go:23-37 | An exact entry is used for every separator. A value whose only bit is unnamed renders as "". |
| WinDevice.Sys | device.go:29-31 | The list handle and record are returned unchanged. |
| WinDevice.InstallState | device.go:195-198 | The state is returned with the error, and is 0 whenever there is an error. |
| WinDevice.ConvertIds | device.go:113-116 | The converted IDs are exactly the fetched strings, same length and order. |
| WinDevice.HardwareID | device.go:108-118 | Nil on error. Otherwise the fetched IDs, same length and order. |
| WinDevice.CompatibleID | device.go:121-131 | Nil on error. Otherwise the fetched IDs, same length and order. |
| WinDevice.StringAccessorsRoundTrip | device.go:103-183 | Every string property, and each of the ten string accessors by name, reads back a NUL-free string stored as a stable REG_SZ value in its own property. |
| WinDevice.Uint32AccessorsRoundTrip | device.go:149-198 | Every DWORD property, and each of ConfigFlags, DevType, Characteristics and InstallState, reads back a number stored in its own property in either byte order. |
| WinDevice.IdAccessorsRoundTrip | device.go:108-131 | The ID accessors read back the strings of a `REG_MULTI_SZ` value, in order. |
| WinDevice.AbsentInstallState | device.go:195-198 | An absent install state reads as `(0, ErrInvalidData)`. |
| WinDevice.Drivers | device.go:35-41 | The driver set is on the device's own handle and record, with the caller's query. |
| WinDevice.InstalledDriver | device.go:45-54 | The driver set is a class-driver query on the same handle and record, with exactly the InstalledDriver and AllowExcludedDrivers flags. |
| WinDevice.Remove | device.go:64-95 | The removal protocol. (1) The first call sends `DIF_REMOVE` with the caller's scope and profile. (2) A failure of the first call returns `(false, err)` with no further call. (3) A failure of the installer call returns `(false, err)` without reading the parameters. (4) When both calls succeed, the parameters are read and the error is nil; a failure to read them is success with `needReboot = false`. (5) Otherwise `needReboot` iff NeedReboot or NeedRestart is set. |
| DeviceQuery.ClassFilter | query.go:32-35 | A zero class GUID gives no filter (a nil pointer). Any other GUID is passed as the filter. |
| DeviceQuery.Loop | query.go:43-67 | The loop starts by enumerating its current index. |
| DeviceQuery.LoopSkips | query.go:62-64 | A member read and not selected adds only its enumeration event; the loop goes on from the next index with the same state. |
| DeviceQuery.LoopActs | query.go:66 | A member read and selected adds its enumeration and its action; the loop goes on from the next index with the actor's new state. |
| DeviceQuery.Walk | query.go:42-67 | The imperative loop returns exactly `Loop`'s error, actor state and trace, consulting the selection only when there is a selector. |
| DeviceQuery.Each | query.go:31-68 | The open, the loop and the destroy return exactly `EachRun`'s error, actor state and trace. |
| DeviceQuery.Count | query.go:22-28 | Returns Each's error and the number of actions Each performed, which is a partial count when an error cut it short. |
| DeviceQuery.IndicesOfAppend | query.go:43-54 | Enumeration indices distribute over concatenated traces. |
| DeviceQuery.ActedOfAppend | query.go:66 | Acted-on members distribute over concatenated traces. |
| DeviceQuery.LoopIndicesAscend | query.go:43-54 | The loop enumerates i, i+1, i+2, … in order, advancing whether or not a member is selected, and never destroys the list. |
| DeviceQuery.LoopEnds | query.go:45-60 | The last event is an enumeration. EOF there gives nil, any other enumeration error is returned, and a member read without error ends the loop only through its selection error. Every earlier member passed. |
| DeviceQuery.ActionsFollowAccepted | query.go:56-66 | Every action directly follows the enumeration of a member that was read and selected without error, and acts on that member. |
| DeviceQuery.AcceptedAreActedOn | query.go:56-66 | Every member that is read and selected without error is acted on right after its enumeration. |
| DeviceQuery.LoopCounts | query.go:22-28 | With a counting actor, the count grows by exactly the number of actions. |
| DeviceQuery.SelectAllActsOnAll | query.go:43-67 | When every member is read and selected, the actor runs on every member in index order and the loop returns nil. |
| DeviceQuery.OpenFailureDoesNothing | query.go:37-40 | A failed open returns its error. Nothing is enumerated or destroyed, and the actor never runs. |
| DeviceQuery.DestroyOnceAtEnd | query.go:41-54 | After a successful open, destroy happens exactly once, as the last event, and the enumeration indices are 0, 1, 2, …. |
| DeviceQuery.ZeroClassOpensAllClasses | query.go:32-37 | A zero class GUID opens the list with AllClasses set. Any other GUID opens it for that class with the caller's flags. |
| DeviceQuery.NoSelectorSelectsAll | query.go:56 | With no selector every member is selected without error. |
| DeviceQuery.NoSelectorActsOnAll | query.go:56-66 | With no selector and a list whose members all read, Each acts on every member in index order and returns nil. |
| DeviceQuery.CountIsActions | query.go:22-28 | The counting actor's final count equals the number of action events. |

## Left out

Platform and foreign calls:

- The raw system calls, pointer marshalling, and the lazy loading of
  setupapi.dll are replaced by oracles (`Platform`).
- `hwndParent`, the `Size` fields and the reserved arguments are constants
  the model does not carry.
- `syscall.UTF16PtrFromString` is modelled only by its failure. A string
  holding a NUL fails with EINVAL, which `Win32.Error` represents as its own
  constructor.
- `utf16BytesToString` and `utf16BytesToSplitString` are not part of this
  model. `Utf16` ASSUMES the behaviour described there:
  - UTF-16LE pairs;
  - Go's surrogate decoding;
  - a REG_SZ value ends at its first NUL;
  - a REG_MULTI_SZ value is a run of NUL-terminated strings ended by an
    empty one.

- Platform.Property: a registry property is one oracle per device and
  property, indexed by the call number within one retrieval, and every
  retrieval starts again at call 0. So two separate reads of the same
  property see the same answers. Examples are two `Description` selectors
  inside one `All`, or a selector's read followed by the caller's own
  read. On Windows the value may change between such reads. Only a change
  between the rounds of a single retrieval is modelled.
- SyscallProperty.CallRegistryProperty, Syscall.SetupDiGetDeviceRegistryProperty
  and Syscall.CallClassGuids: the platform does not specify the buffer's
  contents after a failed call, and the contracts leave them open. On
  success the model's platform writes only the value, and the rest of the
  buffer is left as it was.
- SyscallProperty.GetDeviceRegistryProperty: the returned data is a copy of
  the value. In Go, `data = buffer[:length]` (setupapi/syscall_property.go:83)
  is a slice that aliases the buffer. The contract says nothing of the
  caller's buffer afterwards.

Modelled once, or with a narrower type:

- setupapi/syscall.go repeats `SetupDiGetClassDevsEx`,
  `SetupDiEnumDeviceInfo`, `SetupDiCreateDeviceInfoList` and
  `SetupDiDestroyDeviceInfoList` (lines 41-151). These are identical to the
  functions of setupapi/syscall_device.go, so `SyscallDevice` models them
  once. `DeviceQuery` uses them.
- StrMatch.EqualFoldIsCharwise: case folding is restricted to ASCII
  letters. Unicode folding, as `strings.EqualFold` and `strings.ToLower`
  do it, is not modelled.
- StrMatch.Apply: a nil submatcher inside `All`/`Any` panics in Go and
  cannot be represented. A nil matcher exists only at the top level,
  through `Match`. Likewise `DevSelect.Apply` cannot hold a nil selector
  inside `All`/`Any`.
- DeviceQuery.Loop: the `uint32` index is unbounded. A list of more than
  2^32 members, where the index would wrap, is not modelled.
- DevSelect.Apply: `devselect.Selector` is a Go function type, and
  `windevice.Selector` and `devselect.StringMatcher` are interfaces, so a
  caller may pass its own implementation, which may return `(true, err)`.
  The model closes each over the package's own constructors
  (`DevSelect.Selector`, `StrMatch.Matcher`), and `DeviceQuery.Query`'s
  selector holds only those. "An error comes with `false`" is proved for
  these constructors only. `DeviceQuery.Loop` takes any selection function
  and returns the error of a `(true, err)` answer, as query.go does.
- DiFlagEx.String: the `FormatGo` table is not part of this model, so the
  table is a parameter.
- DiFlagEx.Joined: the format table is keyed by the flag value's number
  rather than by the `Value` itself. This is the same mapping.
- WinDevice.Remove: `DevInstallParams.Flags` is a `uint32` in
  setupapi/devinstallparams.go but is used with `.Match`. The model gives
  it the subset test of `diflagex.Value.Match`.
- DeviceQuery.Each: the result of the deferred
  `SetupDiDestroyDeviceInfoList` is discarded, so the destroy call appears
  only as a trace event.
- DeviceQuery.Each: query.go calls `q.Selector.Select(devices, device)`,
  while the selector takes a device. The model builds the device from the
  list handle, the record and the platform's registry properties for it,
  and applies `DevSelect.Select`.
- DeviceQuery.Walk: the loop of `Query.Each` receives the query's selection
  as a function value. Its `filtered` flag stands for `q.Selector != nil`.
- WinDevice.ConvertIds: `deviceid.Hardware` and `deviceid.Compatible` are
  string types, so each conversion keeps the string. The two accessors
  share one loop.
- DeviceQuery.Count: a Go closure that increments a captured variable
  becomes an actor whose state is threaded through Each.

Not modelled:

- `Device.DeviceInstanceID` and the driver-set enumeration behind
  `DriverSet`. Their implementation is not part of this model; only the
  construction of a driver set is.
- setupapi/syscall_class.go and cmd/devlist are not modelled. The first
  only repeats the flag logic, and the second is a command-line program
  that prints.
