/** Extended device-installation flags (diflagex/value.go): the subset
    test and the rendering of a flag set through a format table. */
module DiFlagEx {
  /** A set of extended flags: a 32-bit word. */
  type Value = bv32

  /** A format table: names for flag values, keyed by the value's number
      (a map keyed by the word itself behaves the same). */
  type Format = map<nat, string>

  // DI_FLAGSEX_INSTALLEDDRIVER and DI_FLAGSEX_ALLOWEXCLUDEDDRVS.
  const InstalledDriver: Value := 0x0400_0000
  const AllowExcludedDrivers: Value := 0x0000_0800

  /** Match: v holds every flag of c. */
  predicate Match(v: Value, c: Value) {
    v & c == c
  }

  /** The flag of bit i. */
  function Bit(i: nat): (b: Value)
    requires i < 32
    ensures b != 0
  {
    (1 as bv32) << i
  }

  /** Match is the subset relation: c's flags all lie in v exactly when
      adding c to v adds nothing. */
  lemma MatchIsUnion(v: Value, c: Value)
    ensures Match(v, c) ==> v | c == v
    ensures v | c == v ==> Match(v, c)
  {
  }

  /** Every flag b that c shares is shared by each v that matches c. */
  lemma MatchKeepsFlags(v: Value, c: Value, b: Value)
    ensures Match(v, c) && c & b != 0 ==> v & b != 0
  {
  }

  /** The empty set and v itself always match, and Match is transitive. */
  lemma MatchIsPreorder(v: Value, c: Value, d: Value)
    ensures Match(v, 0) && Match(v, v)
    ensures Match(v, c) && Match(c, d) ==> Match(v, d)
  {
  }

  /** For a single flag, Match is a test of its bit. */
  lemma MatchSingleFlag(v: Value, i: nat)
    requires i < 32
    ensures Match(v, Bit(i)) <==> v & Bit(i) != 0
  {
  }

  /** strings.Join: the items separated by sep. */
  function JoinStrings(items: seq<string>, sep: string): (s: string)
    ensures items == [] ==> s == ""
    ensures |items| == 1 ==> s == items[0]
  {
    if items == [] then ""
    else if |items| == 1 then items[0]
    else items[0] + sep + JoinStrings(items[1..], sep)
  }

  /** The name bit i of v contributes: its entry when the bit is set and
      the table has one, otherwise nothing. */
  function FlagName(v: Value, format: Format, i: nat): (names: seq<string>)
    requires i < 32
    ensures |names| <= 1
  {
    var flag := Bit(i);
    if Match(v, flag) && flag as nat in format then [format[flag as nat]] else []
  }

  /** The names of the flags of v among bits 0 .. n-1 that have an entry
      in the table, in ascending bit order. */
  function NamedFlags(v: Value, format: Format, n: nat): (names: seq<string>)
    requires n <= 32
    ensures |names| <= n
  {
    if n == 0 then [] else NamedFlags(v, format, n - 1) + FlagName(v, format, n - 1)
  }

  /** The rendering Join produces: the table's own entry for v when there
      is one, whatever the separator; otherwise the names of v's flags,
      separated by sep. */
  function Joined(v: Value, sep: string, format: Format): (s: string)
    ensures v as nat in format ==> s == format[v as nat]
    ensures v as nat !in format ==> s == JoinStrings(NamedFlags(v, format, 32), sep)
  {
    if v as nat in format then format[v as nat] else JoinStrings(NamedFlags(v, format, 32), sep)
  }

  /** Join: the exact entry first; otherwise one pass over the 32 bits,
      collecting the names of the set ones. */
  method Join(v: Value, sep: string, format: Format) returns (s: string)
    ensures s == Joined(v, sep, format)
  {
    if v as nat in format {
      return format[v as nat];
    }
    var matched: seq<string> := [];
    var i: nat := 0;
    while i < 32
      invariant i <= 32
      invariant matched == NamedFlags(v, format, i)
    {
      var flag := Bit(i);
      if Match(v, flag) {
        if flag as nat in format {
          matched := matched + [format[flag as nat]];
        }
      }
      i := i + 1;
    }
    return JoinStrings(matched, sep);
  }

  /** String: Join with "|" and the Go-constant table. */
  function String(v: Value, formatGo: Format): (s: string)
    ensures v as nat in formatGo ==> s == formatGo[v as nat]
    ensures s == Joined(v, "|", formatGo)
  {
    Joined(v, "|", formatGo)
  }

  /** Bit i of v is set and the table names its flag `name`. */
  predicate FlagNamed(v: Value, format: Format, i: nat, name: string) {
    i < 32 && v & Bit(i) != 0 && Bit(i) as nat in format && format[Bit(i) as nat] == name
  }

  /** Bit i contributes `name` exactly when it is set and named so. */
  lemma FlagNameIsNamed(v: Value, format: Format, i: nat, name: string)
    requires i < 32
    ensures name in FlagName(v, format, i) <==> FlagNamed(v, format, i, name)
  {
    MatchSingleFlag(v, i);
  }

  /** A name is listed exactly when it names a set flag of v below bit n. */
  lemma {:induction false} NamedFlagsMembers(v: Value, format: Format, n: nat, name: string)
    requires n <= 32
    ensures name in NamedFlags(v, format, n) <==> exists i :: 0 <= i < n && FlagNamed(v, format, i, name)
  {
    if n > 0 {
      NamedFlagsMembers(v, format, n - 1, name);
      FlagNameIsNamed(v, format, n - 1, name);
      assert NamedFlags(v, format, n) == NamedFlags(v, format, n - 1) + FlagName(v, format, n - 1);
    }
  }

  /** Flags without an entry are omitted: when none of v's set flags is
      named and v has no entry of its own, the rendering is empty. */
  lemma {:induction false} UnnamedFlagsRenderEmpty(v: Value, format: Format, sep: string)
    requires v as nat !in format
    requires forall i :: 0 <= i < 32 && v & Bit(i) != 0 ==> Bit(i) as nat !in format
    ensures Joined(v, sep, format) == ""
  {
    NoNamedFlags(v, format, 32);
  }

  lemma {:induction false} NoNamedFlags(v: Value, format: Format, n: nat)
    requires n <= 32
    requires forall i :: 0 <= i < 32 && v & Bit(i) != 0 ==> Bit(i) as nat !in format
    ensures NamedFlags(v, format, n) == []
  {
    if n > 0 {
      NoNamedFlags(v, format, n - 1);
      MatchSingleFlag(v, n - 1);
      assert FlagName(v, format, n - 1) == [];
    }
  }

  /** The table the examples use: names for bits 0 and 1 only. */
  function ExampleFormat(): Format {
    map[1 := "A", 2 := "B"]
  }

  /** No bit from 2 on has an entry in the example table. */
  lemma ExampleFormatHigherBits()
    ensures forall i :: 2 <= i < 32 ==> Bit(i) as nat !in ExampleFormat()
  {
    forall i | 2 <= i < 32
      ensures Bit(i) as nat !in ExampleFormat()
    {
      assert Bit(i) as nat != 1 && Bit(i) as nat != 2;
    }
  }

  /** 3 renders its two named flags in ascending bit order. */
  lemma JoinExamples()
    ensures Joined(3, ",", ExampleFormat()) == "A,B"
  {
    var f := ExampleFormat();
    assert Bit(0) == 1 && Bit(1) == 2;
    assert FlagName(3, f, 0) == ["A"] && FlagName(3, f, 1) == ["B"];
    assert NamedFlags(3, f, 2) == ["A", "B"];
    ExampleFormatHigherBits();
    NamedFlagsTail(3, f, 2);
    var ab := ["A", "B"];
    assert ab[1..] == ["B"];
    var r := "A" + "," + "B";
    assert |r| == 3 && r[0] == 'A' && r[1] == ',' && r[2] == 'B';
    assert JoinStrings(ab, ",") == r == "A,B";
  }

  /** 7 renders exactly as 3: its bit 2 has no name and is dropped. */
  lemma JoinDropsUnnamedExample(sep: string)
    ensures Joined(7, sep, ExampleFormat()) == Joined(3, sep, ExampleFormat())
  {
    var f := ExampleFormat();
    assert Bit(0) == 1 && Bit(1) == 2;
    assert FlagName(3, f, 0) == FlagName(7, f, 0) == ["A"];
    assert FlagName(3, f, 1) == FlagName(7, f, 1) == ["B"];
    assert NamedFlags(7, f, 2) == NamedFlags(3, f, 2);
    ExampleFormatHigherBits();
    NamedFlagsTail(3, f, 2);
    NamedFlagsTail(7, f, 2);
  }

  /** A value with its own entry is rendered by it, whatever the
      separator; 4, whose only flag has no name, renders as "". */
  lemma JoinExactAndEmptyExamples()
    ensures Joined(3, ",", ExampleFormat()[3 := "AB"]) == "AB"
    ensures Joined(3, " ", ExampleFormat()[3 := "AB"]) == "AB"
    ensures Joined(4, ",", ExampleFormat()) == ""
  {
    var f := ExampleFormat();
    assert Bit(0) == 1 && Bit(1) == 2;
    assert FlagName(4, f, 0) == [] && FlagName(4, f, 1) == [];
    assert NamedFlags(4, f, 2) == [];
    ExampleFormatHigherBits();
    NamedFlagsTail(4, f, 2);
  }

  /** Bits from n on that have no entry add no names. */
  lemma {:induction false} NamedFlagsTail(v: Value, format: Format, n: nat)
    requires n <= 32
    requires forall i :: n <= i < 32 ==> Bit(i) as nat !in format
    ensures NamedFlags(v, format, 32) == NamedFlags(v, format, n)
  {
    NamedFlagsFrom(v, format, n, 32);
  }

  lemma {:induction false} NamedFlagsFrom(v: Value, format: Format, n: nat, m: nat)
    requires n <= m <= 32
    requires forall i :: n <= i < 32 ==> Bit(i) as nat !in format
    ensures NamedFlags(v, format, m) == NamedFlags(v, format, n)
    decreases m
  {
    if m > n {
      NamedFlagsFrom(v, format, n, m - 1);
    }
  }
}
