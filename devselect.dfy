/** Device selectors (the devselect package): predicates over a device that
    may fail, the field selectors built on string matchers, and the All and
    Any combinators. */
module DevSelect {
  import opened Wrappers
  import opened Win32
  import StrMatch
  import WinDevice

  /** A selector, by the constructor that built it. The matcher of a field
      selector may be nil (None), which matches every string; a nil
      selector exists only at the top (see Select). */
  datatype Selector =
    | Class(matcher: Option<StrMatch.Matcher>)
    | Description(matcher: Option<StrMatch.Matcher>)
    | FriendlyName(matcher: Option<StrMatch.Matcher>)
    | ID(matcher: Option<StrMatch.Matcher>)
    | All(selectors: seq<Selector>)
    | Any(selectors: seq<Selector>)

  /** The body shared by Class, Description and FriendlyName: a fetch error
      other than ErrInvalidData is returned with false; otherwise the
      matcher decides on the fetched string, which is "" when the property
      is absent. */
  function FieldSelect(fetched: (string, Option<Error>), m: Option<StrMatch.Matcher>): (r: (bool, Option<Error>))
    ensures r.1.Some? ==> !r.0
  {
    if fetched.1.Some? && fetched.1 != Some(ErrInvalidData) then (false, fetched.1)
    else (StrMatch.Match(m, fetched.0), None)
  }

  /** The loop of ID: true at the first ID the matcher accepts. */
  function IdsMatch(ids: seq<string>, m: Option<StrMatch.Matcher>): bool {
    if ids == [] then false
    else if StrMatch.Match(m, ids[0]) then true
    else IdsMatch(ids[1..], m)
  }

  /** ID: every error of the hardware-ID fetch is returned with false;
      otherwise whether some ID matches. */
  function IdSelect(fetched: (seq<string>, Option<Error>), m: Option<StrMatch.Matcher>): (r: (bool, Option<Error>))
    ensures r.1.Some? ==> !r.0
  {
    if fetched.1.Some? then (false, fetched.1) else (IdsMatch(fetched.0, m), None)
  }

  /** What a (non-nil) selector returns for a device. A selector that
      reports an error always reports false with it. */
  function Apply(s: Selector, d: WinDevice.Device): (r: (bool, Option<Error>))
    ensures r.1.Some? ==> !r.0
    decreases s
  {
    match s
    case Class(m) => FieldSelect(WinDevice.Class(d), m)
    case Description(m) => FieldSelect(WinDevice.Description(d), m)
    case FriendlyName(m) => FieldSelect(WinDevice.FriendlyName(d), m)
    case ID(m) => IdSelect(WinDevice.HardwareIds(d), m)
    case All(ss) => AllSelect(ss, d)
    case Any(ss) => AnySelect(ss, d)
  }

  /** The loop of All: the first error, or false at the first selector
      that rejects, ends it. */
  function AllSelect(ss: seq<Selector>, d: WinDevice.Device): (r: (bool, Option<Error>))
    ensures r.1.Some? ==> !r.0
    decreases ss
  {
    if ss == [] then (true, None)
    else
      var first := Apply(ss[0], d);
      if first.1.Some? then (false, first.1)
      else if !first.0 then (false, None)
      else AllSelect(ss[1..], d)
  }

  /** The loop of Any: the first error, or true at the first selector that
      accepts, ends it. */
  function AnySelect(ss: seq<Selector>, d: WinDevice.Device): (r: (bool, Option<Error>))
    ensures r.1.Some? ==> !r.0
    decreases ss
  {
    if ss == [] then (false, None)
    else
      var first := Apply(ss[0], d);
      if first.1.Some? then (false, first.1)
      else if first.0 then (true, None)
      else AnySelect(ss[1..], d)
  }

  /** Selector.Select: a nil selector selects every device without looking
      at it; any other selector decides by itself. */
  function Select(s: Option<Selector>, d: WinDevice.Device): (r: (bool, Option<Error>))
    ensures s.None? ==> r == (true, None)
    ensures s.Some? ==> r == Apply(s.value, d)
  {
    match s
    case None => (true, None)
    case Some(f) => Apply(f, d)
  }

  // ---------------------------------------------------------------------
  // Field selectors
  // ---------------------------------------------------------------------

  /** An absent class, description or friendly name (ErrInvalidData) is no
      error: the matcher decides on "". */
  lemma AbsentFieldIsEmpty(d: WinDevice.Device, m: Option<StrMatch.Matcher>)
    ensures WinDevice.Class(d).1 == Some(ErrInvalidData) ==> Apply(Class(m), d) == (StrMatch.Match(m, ""), None)
    ensures WinDevice.Description(d).1 == Some(ErrInvalidData) ==>
              Apply(Description(m), d) == (StrMatch.Match(m, ""), None)
    ensures WinDevice.FriendlyName(d).1 == Some(ErrInvalidData) ==>
              Apply(FriendlyName(m), d) == (StrMatch.Match(m, ""), None)
  {
  }

  /** Any other fetch error is returned, with false. */
  lemma FieldErrorsPropagate(d: WinDevice.Device, m: Option<StrMatch.Matcher>, e: Error)
    requires e != ErrInvalidData
    ensures WinDevice.Class(d).1 == Some(e) ==> Apply(Class(m), d) == (false, Some(e))
    ensures WinDevice.Description(d).1 == Some(e) ==> Apply(Description(m), d) == (false, Some(e))
    ensures WinDevice.FriendlyName(d).1 == Some(e) ==> Apply(FriendlyName(m), d) == (false, Some(e))
  {
  }

  /** A fetched value is given to the matcher, and only the friendly name
      is consulted by FriendlyName. */
  lemma FieldSuccess(d: WinDevice.Device, m: Option<StrMatch.Matcher>)
    ensures WinDevice.Class(d).1.None? ==> Apply(Class(m), d) == (StrMatch.Match(m, WinDevice.Class(d).0), None)
    ensures WinDevice.Description(d).1.None? ==>
              Apply(Description(m), d) == (StrMatch.Match(m, WinDevice.Description(d).0), None)
    ensures WinDevice.FriendlyName(d).1.None? ==>
              Apply(FriendlyName(m), d) == (StrMatch.Match(m, WinDevice.FriendlyName(d).0), None)
  {
  }

  // ---------------------------------------------------------------------
  // ID
  // ---------------------------------------------------------------------

  /** ID does not excuse an absent property: ErrInvalidData from the
      hardware IDs is returned as an error, where Class, for an absent class
      name, reports no error. */
  lemma IdPropagatesAbsent(d: WinDevice.Device, m: Option<StrMatch.Matcher>)
    requires WinDevice.HardwareIds(d).1 == Some(ErrInvalidData)
    requires WinDevice.Class(d).1 == Some(ErrInvalidData)
    ensures Apply(ID(m), d) == (false, Some(ErrInvalidData))
    ensures Apply(Class(m), d).1 == None
  {
  }

  /** The ID loop accepts exactly when some ID matches. */
  lemma {:induction false} IdsMatchMeansSome(ids: seq<string>, m: Option<StrMatch.Matcher>)
    ensures IdsMatch(ids, m) <==> exists i :: 0 <= i < |ids| && StrMatch.Match(m, ids[i])
  {
    if ids != [] {
      IdsMatchMeansSome(ids[1..], m);
      if StrMatch.Match(m, ids[0]) {
        assert 0 < |ids|;
      } else if IdsMatch(ids, m) {
        var i :| 0 <= i < |ids[1..]| && StrMatch.Match(m, ids[1..][i]);
        assert StrMatch.Match(m, ids[i + 1]);
      } else {
        forall i | 0 <= i < |ids|
          ensures !StrMatch.Match(m, ids[i])
        {
          if i > 0 {
            assert ids[i] == ids[1..][i - 1];
          }
        }
      }
    }
  }

  /** ID selects a device exactly when its hardware IDs are read and one of
      them matches; with no IDs it never selects, even with a nil matcher. */
  lemma IdMeansSome(d: WinDevice.Device, m: Option<StrMatch.Matcher>)
    ensures var fetched := WinDevice.HardwareIds(d);
            Apply(ID(m), d) == (true, None) <==>
              fetched.1.None? && exists i :: 0 <= i < |fetched.0| && StrMatch.Match(m, fetched.0[i])
    ensures WinDevice.HardwareIds(d) == ([], None) ==> Apply(ID(m), d) == (false, None)
  {
    IdsMatchMeansSome(WinDevice.HardwareIds(d).0, m);
  }

  /** The ID loop stops at the first matching ID: the IDs after it play no
      part. */
  lemma {:induction false} IdsMatchStopsAt(ids: seq<string>, m: Option<StrMatch.Matcher>, j: nat)
    requires j < |ids| && StrMatch.Match(m, ids[j])
    ensures IdsMatch(ids, m)
    ensures IdsMatch(ids[..j + 1], m)
  {
    IdsMatchMeansSome(ids, m);
    IdsMatchMeansSome(ids[..j + 1], m);
    assert ids[..j + 1][j] == ids[j];
  }

  /** The order of the hardware IDs does not change what ID decides. */
  lemma IdsMatchIgnoresOrder(ids: seq<string>, jds: seq<string>, m: Option<StrMatch.Matcher>)
    requires multiset(ids) == multiset(jds)
    ensures IdsMatch(ids, m) == IdsMatch(jds, m)
  {
    IdsMatchMeansSome(ids, m);
    IdsMatchMeansSome(jds, m);
    if IdsMatch(ids, m) {
      var i :| 0 <= i < |ids| && StrMatch.Match(m, ids[i]);
      assert ids[i] in multiset(jds);
      var k :| 0 <= k < |jds| && jds[k] == ids[i];
    }
    if IdsMatch(jds, m) {
      var i :| 0 <= i < |jds| && StrMatch.Match(m, jds[i]);
      assert jds[i] in multiset(ids);
      var k :| 0 <= k < |ids| && ids[k] == jds[i];
    }
  }

  // ---------------------------------------------------------------------
  // All and Any
  // ---------------------------------------------------------------------

  /** All() selects every device; Any() selects none; neither reports an
      error. */
  lemma EmptyCombinators(d: WinDevice.Device)
    ensures Apply(All([]), d) == (true, None)
    ensures Apply(Any([]), d) == (false, None)
  {
  }

  /** All selects a device, without error, exactly when every selector
      does. */
  lemma {:induction false} AllMeansEvery(ss: seq<Selector>, d: WinDevice.Device)
    ensures AllSelect(ss, d) == (true, None) <==> forall s :: s in ss ==> Apply(s, d) == (true, None)
  {
    if ss != [] {
      AllMeansEvery(ss[1..], d);
      if AllSelect(ss, d) == (true, None) {
        forall s | s in ss ensures Apply(s, d) == (true, None) {
          if s != ss[0] {
            assert s in ss[1..];
          }
        }
      } else if Apply(ss[0], d) == (true, None) {
        var s :| s in ss[1..] && Apply(s, d) != (true, None);
        assert s in ss;
      } else {
        assert ss[0] in ss;
      }
    }
  }

  /** All runs its selectors in order and stops at the first one that does
      not select without error: its error (or false) is the result, and the
      selectors after it never run, so their errors never surface. */
  lemma {:induction false} AllStopsAt(ss: seq<Selector>, d: WinDevice.Device, j: nat)
    requires j < |ss|
    requires forall i :: 0 <= i < j ==> Apply(ss[i], d) == (true, None)
    requires Apply(ss[j], d) != (true, None)
    ensures AllSelect(ss, d) == (false, Apply(ss[j], d).1)
    ensures AllSelect(ss, d) == AllSelect(ss[..j + 1], d)
  {
    if j == 0 {
      assert ss[..1][0] == ss[0];
    } else {
      assert Apply(ss[0], d) == (true, None);
      AllStopsAt(ss[1..], d, j - 1);
      assert ss[..j + 1][0] == ss[0];
      assert ss[..j + 1][1..] == ss[1..][..j];
    }
  }

  /** Any rejects a device, without error, exactly when every selector
      does. */
  lemma {:induction false} AnyMeansNone(ss: seq<Selector>, d: WinDevice.Device)
    ensures AnySelect(ss, d) == (false, None) <==> forall s :: s in ss ==> Apply(s, d) == (false, None)
  {
    if ss != [] {
      AnyMeansNone(ss[1..], d);
      if AnySelect(ss, d) == (false, None) {
        forall s | s in ss ensures Apply(s, d) == (false, None) {
          if s != ss[0] {
            assert s in ss[1..];
          }
        }
      } else if Apply(ss[0], d) == (false, None) {
        var s :| s in ss[1..] && Apply(s, d) != (false, None);
        assert s in ss;
      } else {
        assert ss[0] in ss;
      }
    }
  }

  /** Any runs its selectors in order and stops at the first one that does
      not reject without error: true when it selects, and its error, with
      false, when it fails, even if a later selector would have selected. */
  lemma {:induction false} AnyStopsAt(ss: seq<Selector>, d: WinDevice.Device, j: nat)
    requires j < |ss|
    requires forall i :: 0 <= i < j ==> Apply(ss[i], d) == (false, None)
    requires Apply(ss[j], d) != (false, None)
    ensures AnySelect(ss, d) == Apply(ss[j], d)
    ensures AnySelect(ss, d) == AnySelect(ss[..j + 1], d)
  {
    if j == 0 {
      assert ss[..1][0] == ss[0];
    } else {
      assert Apply(ss[0], d) == (false, None);
      AnyStopsAt(ss[1..], d, j - 1);
      assert ss[..j + 1][0] == ss[0];
      assert ss[..j + 1][1..] == ss[1..][..j];
    }
  }
}
