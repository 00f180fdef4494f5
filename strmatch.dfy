/** String matchers (the strmatch package): predicates over one string, built from
    the four comparison kinds and combined with All and Any. A Go matcher is
    a closure; here it is a value of the datatype `Matcher`, and `Apply` is
    the call `m(s)`. A nil matcher exists only at the top level
    (`Option<Matcher>`), and only `Match` gives it the match-everything
    default. */
module StrMatch {
  import opened Wrappers

  // ---------------------------------------------------------------------
  // Case folding and substring search (the parts of Go's strings package
  // the matchers use). Case folding is restricted to ASCII letters.
  // ---------------------------------------------------------------------

  function LowerChar(c: char): char {
    if 'A' <= c <= 'Z' then (c as int + 32) as char else c
  }

  /** strings.ToLower, restricted to ASCII letters. */
  function ToLower(s: string): (r: string)
    ensures |r| == |s|
    ensures forall i :: 0 <= i < |s| ==> r[i] == LowerChar(s[i])
  {
    seq(|s|, k requires 0 <= k < |s| => LowerChar(s[k]))
  }

  /** strings.EqualFold, restricted to ASCII letters. */
  predicate EqualFoldStrings(s: string, t: string) {
    ToLower(s) == ToLower(t)
  }

  /** `sub` occurs in `s` starting at index `i`. */
  ghost predicate OccursAt(s: string, sub: string, i: int) {
    0 <= i && i + |sub| <= |s| && s[i..i + |sub|] == sub
  }

  /** strings.Contains: the search tries each start position in turn. */
  function StringsContains(s: string, sub: string): bool
    decreases |s|
  {
    |sub| <= |s| && (s[..|sub|] == sub || StringsContains(s[1..], sub))
  }

  /** The search finds `sub` exactly when it occurs somewhere in `s`. */
  lemma {:induction false} StringsContainsIsSubstring(s: string, sub: string)
    ensures StringsContains(s, sub) <==> exists i :: OccursAt(s, sub, i)
    decreases |s|
  {
    if |sub| <= |s| {
      if s[..|sub|] == sub {
        assert OccursAt(s, sub, 0);
      } else {
        StringsContainsIsSubstring(s[1..], sub);
        if StringsContains(s[1..], sub) {
          var i :| OccursAt(s[1..], sub, i);
          assert s[i + 1..i + 1 + |sub|] == s[1..][i..i + |sub|];
          assert OccursAt(s, sub, i + 1);
        } else {
          forall i | OccursAt(s, sub, i) && i > 0 ensures OccursAt(s[1..], sub, i - 1) {
            assert s[1..][i - 1..i - 1 + |sub|] == s[i..i + |sub|];
          }
          assert s[0..|sub|] == s[..|sub|];
        }
      }
    }
  }

  // ---------------------------------------------------------------------
  // Matchers
  // ---------------------------------------------------------------------

  /** The closures the strmatch constructors return. `ContainsLower` holds
      the value ContainsInsensitive lowered once, at construction. */
  datatype Matcher =
    | Equal(value: string)
    | EqualFold(value: string)
    | Contains(value: string)
    | ContainsLower(lowered: string)
    | All(submatches: seq<Matcher>)
    | Any(submatches: seq<Matcher>)

  /** strmatch.ContainsInsensitive: lowers `value` once and keeps it. */
  function ContainsInsensitive(value: string): (m: Matcher)
    ensures m.ContainsLower? && m.lowered == ToLower(value)
  {
    ContainsLower(ToLower(value))
  }

  /** Calling the closure: `m(s)`. */
  function Apply(m: Matcher, s: string): bool
    decreases m
  {
    match m
    case Equal(v) => s == v
    case EqualFold(v) => EqualFoldStrings(s, v)
    case Contains(v) => StringsContains(s, v)
    case ContainsLower(l) => StringsContains(ToLower(s), l)
    case All(ms) => AllHold(ms, s)
    case Any(ms) => AnyHolds(ms, s)
  }

  /** The loop of strmatch.All: false at the first submatcher that fails. */
  function AllHold(ms: seq<Matcher>, s: string): bool
    decreases ms
  {
    if ms == [] then true
    else if !Apply(ms[0], s) then false
    else AllHold(ms[1..], s)
  }

  /** The loop of strmatch.Any: true at the first submatcher that succeeds. */
  function AnyHolds(ms: seq<Matcher>, s: string): bool
    decreases ms
  {
    if ms == [] then false
    else if Apply(ms[0], s) then true
    else AnyHolds(ms[1..], s)
  }

  /** Matcher.Match: a nil matcher matches every string; any other matcher
      decides by itself. */
  function Match(m: Option<Matcher>, s: string): (r: bool)
    ensures m.None? ==> r
    ensures m.Some? ==> r == Apply(m.value, s)
  {
    match m
    case None => true
    case Some(f) => Apply(f, s)
  }

  // ---------------------------------------------------------------------
  // strmatch/equal.go
  // ---------------------------------------------------------------------

  /** Equal(v) accepts v itself and nothing else: the comparison is
      case-sensitive. */
  lemma EqualIsExact(v: string, w: string)
    ensures Apply(Equal(v), w) <==> w == v
    ensures Apply(Equal("ABC"), "ABC") && !Apply(Equal("ABC"), "abc")
  {
    assert "ABC"[0] != "abc"[0];
  }

  /** EqualFold(v) accepts w exactly when the two have the same length and
      agree letter by letter once lowered. */
  lemma EqualFoldIsCharwise(v: string, w: string)
    ensures Apply(EqualFold(v), w) <==>
              |w| == |v| && forall i :: 0 <= i < |w| ==> LowerChar(w[i]) == LowerChar(v[i])
  {
    if |w| == |v| && forall i :: 0 <= i < |w| ==> LowerChar(w[i]) == LowerChar(v[i]) {
      assert ToLower(w) == ToLower(v);
    }
    if Apply(EqualFold(v), w) {
      forall i | 0 <= i < |w| ensures LowerChar(w[i]) == LowerChar(v[i]) {
        assert ToLower(w)[i] == ToLower(v)[i];
      }
    }
  }

  /** EqualFold does not care which side is the matcher's value. */
  lemma EqualFoldIsSymmetric(v: string, w: string)
    ensures Apply(EqualFold(v), w) == Apply(EqualFold(w), v)
  {
  }

  /** Whatever Equal accepts, EqualFold accepts too. */
  lemma EqualImpliesEqualFold(v: string, w: string)
    ensures Apply(Equal(v), w) ==> Apply(EqualFold(v), w)
  {
  }

  /** EqualFold("ABC") accepts "abc", "Abc" and "ABC" and rejects "abcd". */
  lemma EqualFoldExamples()
    ensures Apply(EqualFold("ABC"), "abc")
    ensures Apply(EqualFold("ABC"), "Abc")
    ensures Apply(EqualFold("ABC"), "ABC")
    ensures !Apply(EqualFold("ABC"), "abcd")
  {
    EqualFoldIsCharwise("ABC", "abc");
    EqualFoldIsCharwise("ABC", "Abc");
  }

  // ---------------------------------------------------------------------
  // strmatch/contains.go
  // ---------------------------------------------------------------------

  /** Contains(v) accepts w exactly when v is a substring of w. */
  lemma ContainsIsSubstring(v: string, w: string)
    ensures Apply(Contains(v), w) <==> exists i :: OccursAt(w, v, i)
  {
    StringsContainsIsSubstring(w, v);
  }

  /** Contains("") accepts every string, and Contains(v) accepts v. */
  lemma ContainsEmptyAndSelf(v: string, w: string)
    ensures Apply(Contains(""), w)
    ensures Apply(Contains(v), v)
  {
    assert OccursAt(w, "", 0);
    assert OccursAt(v, v, 0);
    ContainsIsSubstring("", w);
    ContainsIsSubstring(v, v);
  }

  /** Contains("bc") accepts "abcd" and rejects "xyz". */
  lemma ContainsExamples()
    ensures Apply(Contains("bc"), "abcd")
    ensures !Apply(Contains("bc"), "xyz")
  {
    assert "xyz"[..2][0] == 'x' && "yz"[..2][0] == 'y' && "bc"[0] == 'b';
    assert !StringsContains("z", "bc");
    assert "yz"[1..] == "z";
    assert !StringsContains("yz", "bc");
    assert "xyz"[1..] == "yz";
    assert "abcd"[1..3] == "bc";
    assert OccursAt("abcd", "bc", 1);
    ContainsIsSubstring("bc", "abcd");
  }

  /** ContainsInsensitive(v) accepts w exactly when the lowered v is a
      substring of the lowered w. */
  lemma ContainsInsensitiveIsLoweredSubstring(v: string, w: string)
    ensures Apply(ContainsInsensitive(v), w) <==> exists i :: OccursAt(ToLower(w), ToLower(v), i)
  {
    assert Apply(ContainsInsensitive(v), w) == StringsContains(ToLower(w), ToLower(v));
    StringsContainsIsSubstring(ToLower(w), ToLower(v));
  }

  lemma ToLowerSlice(s: string, i: int, j: int)
    requires 0 <= i <= j <= |s|
    ensures ToLower(s)[i..j] == ToLower(s[i..j])
  {
  }

  /** Whatever Contains accepts, ContainsInsensitive accepts too. */
  lemma ContainsImpliesContainsInsensitive(v: string, w: string)
    ensures Apply(Contains(v), w) ==> Apply(ContainsInsensitive(v), w)
  {
    ContainsIsSubstring(v, w);
    ContainsInsensitiveIsLoweredSubstring(v, w);
    if Apply(Contains(v), w) {
      var i :| OccursAt(w, v, i);
      ToLowerSlice(w, i, i + |v|);
      assert OccursAt(ToLower(w), ToLower(v), i);
    }
  }

  // ---------------------------------------------------------------------
  // strmatch/all.go
  // ---------------------------------------------------------------------

  /** All(ms) accepts s exactly when every submatcher accepts s. */
  lemma {:induction false} AllMeansEvery(ms: seq<Matcher>, s: string)
    ensures AllHold(ms, s) <==> forall m :: m in ms ==> Apply(m, s)
    decreases ms
  {
    if ms != [] {
      AllMeansEvery(ms[1..], s);
      if AllHold(ms, s) {
        forall m | m in ms ensures Apply(m, s) {
          if m != ms[0] {
            assert m in ms[1..];
          }
        }
      } else if Apply(ms[0], s) {
        var m :| m in ms[1..] && !Apply(m, s);
        assert m in ms;
      } else {
        assert ms[0] in ms;
      }
    }
  }

  /** All() accepts everything, and All(m) decides as m does. */
  lemma AllEmptyAndSingle(m: Matcher, s: string)
    ensures Apply(All([]), s)
    ensures Apply(All([m]), s) == Apply(m, s)
  {
    assert [m][1..] == [];
  }

  /** The order of the submatchers does not change what All decides. */
  lemma AllIgnoresOrder(ms: seq<Matcher>, ns: seq<Matcher>, s: string)
    requires multiset(ms) == multiset(ns)
    ensures AllHold(ms, s) == AllHold(ns, s)
  {
    AllMeansEvery(ms, s);
    AllMeansEvery(ns, s);
    forall m ensures m in ms <==> m in ns {
      assert m in ms <==> m in multiset(ms);
      assert m in ns <==> m in multiset(ns);
    }
  }

  /** How many submatchers the loop of strmatch.All calls: it stops right
      after the first one that fails, so the submatchers after that one are
      never called and cannot change the result. */
  function AllCalls(ms: seq<Matcher>, s: string): (n: nat)
    ensures n <= |ms| && (n == 0 <==> ms == [])
    ensures forall i :: 0 <= i < n - 1 ==> Apply(ms[i], s)
    ensures n < |ms| ==> !Apply(ms[n - 1], s)
    ensures AllHold(ms, s) <==> forall i :: 0 <= i < n ==> Apply(ms[i], s)
    decreases ms
  {
    if ms == [] then 0
    else if !Apply(ms[0], s) then 1
    else 1 + AllCalls(ms[1..], s)
  }

  // ---------------------------------------------------------------------
  // strmatch/any.go
  // ---------------------------------------------------------------------

  /** Any(ms) accepts s exactly when some submatcher accepts s. */
  lemma {:induction false} AnyMeansSome(ms: seq<Matcher>, s: string)
    ensures AnyHolds(ms, s) <==> exists m :: m in ms && Apply(m, s)
    decreases ms
  {
    if ms != [] {
      AnyMeansSome(ms[1..], s);
      if !AnyHolds(ms, s) {
        forall m | m in ms ensures !Apply(m, s) {
          if m != ms[0] {
            assert m in ms[1..];
          }
        }
      } else if !Apply(ms[0], s) {
        var m :| m in ms[1..] && Apply(m, s);
        assert m in ms;
      } else {
        assert ms[0] in ms;
      }
    }
  }

  /** Any() accepts nothing, and Any(m) decides as m does. */
  lemma AnyEmptyAndSingle(m: Matcher, s: string)
    ensures !Apply(Any([]), s)
    ensures Apply(Any([m]), s) == Apply(m, s)
  {
    assert [m][1..] == [];
  }

  /** The order of the submatchers does not change what Any decides. */
  lemma AnyIgnoresOrder(ms: seq<Matcher>, ns: seq<Matcher>, s: string)
    requires multiset(ms) == multiset(ns)
    ensures AnyHolds(ms, s) == AnyHolds(ns, s)
  {
    AnyMeansSome(ms, s);
    AnyMeansSome(ns, s);
    forall m ensures m in ms <==> m in ns {
      assert m in ms <==> m in multiset(ms);
      assert m in ns <==> m in multiset(ns);
    }
  }

  /** How many submatchers the loop of strmatch.Any calls: it stops right
      after the first one that succeeds. */
  function AnyCalls(ms: seq<Matcher>, s: string): (n: nat)
    ensures n <= |ms| && (n == 0 <==> ms == [])
    ensures forall i :: 0 <= i < n - 1 ==> !Apply(ms[i], s)
    ensures n < |ms| ==> Apply(ms[n - 1], s)
    ensures AnyHolds(ms, s) <==> exists i :: 0 <= i < n && Apply(ms[i], s)
    decreases ms
  {
    if ms == [] then 0
    else if Apply(ms[0], s) then 1
    else 1 + AnyCalls(ms[1..], s)
  }
}
