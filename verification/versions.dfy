/** The conversion of the caret version constraints of the project file
    ("^1.2.3") into the comparison form the build tool understands
    (">=1.2.3,<2.0.0"), and the dependency list built from them. */
module Versions {
  import opened Wrappers
  import Arith

  // ---------------------------------------------------------------------
  // Numbers as text

  /** A decimal digit. */
  predicate IsDigit(c: char) {
    '0' <= c <= '9'
  }

  /** The value of one digit. */
  function DigitValue(c: char): nat
    requires IsDigit(c)
  {
    c as int - '0' as int
  }

  /** The digit of a value below ten. */
  function DigitOf(d: nat): (c: char)
    requires d < 10
    ensures IsDigit(c) && DigitValue(c) == d
  {
    ('0' as int + d) as char
  }

  /** The value of the digits of `s`. */
  function Value(s: string): nat
    requires forall i :: 0 <= i < |s| ==> IsDigit(s[i])
  {
    if |s| == 0 then 0 else Value(s[..|s| - 1]) * 10 + DigitValue(s[|s| - 1])
  }

  /** `int(s)` on a nonempty string of ASCII decimal digits.  Every other
      string is refused, although Python's `int` also accepts surrounding
      whitespace, a sign, single underscores between digits and non-ASCII
      decimal digits. */
  function ParseNat(s: string): (r: Option<nat>)
    ensures r.Some? <==> |s| > 0 && forall i :: 0 <= i < |s| ==> IsDigit(s[i])
  {
    if |s| > 0 && forall i :: 0 <= i < |s| ==> IsDigit(s[i]) then Some(Value(s)) else None
  }

  /** `str(n)`: the decimal digits of `n`. */
  function Render(n: nat): (r: string)
    ensures |r| > 0 && forall i :: 0 <= i < |r| ==> IsDigit(r[i])
  {
    if n < 10 then [DigitOf(n)]
    else Render(n / 10) + [DigitOf(n % 10)]
  }

  /** The digits of a rendered number are worth the number. */
  lemma {:induction false} ValueRender(n: nat)
    ensures Value(Render(n)) == n
  {
    var s := Render(n);
    if n < 10 {
      assert s[..0] == [];
    } else {
      ValueRender(n / 10);
      assert s[..|s| - 1] == Render(n / 10);
      Arith.DivMod(n, 10);
    }
  }

  /** Reading back a rendered number gives the number. */
  lemma ParseRender(n: nat)
    ensures ParseNat(Render(n)) == Some(n)
  {
    ValueRender(n);
  }

  // ---------------------------------------------------------------------
  // Dotted lists

  /** `s.split(".")`: the pieces between the dots, at least one. */
  function Split(s: string): (r: seq<string>)
    ensures |r| > 0
  {
    if |s| == 0 then [""]
    else if s[0] == '.' then [""] + Split(s[1..])
    else var rest := Split(s[1..]); [[s[0]] + rest[0]] + rest[1..]
  }

  /** `".".join(parts)`. */
  function Join(parts: seq<string>): string
    requires |parts| > 0
  {
    if |parts| == 1 then parts[0] else parts[0] + "." + Join(parts[1..])
  }

  /** A piece with no dot joins onto the first piece of what follows. */
  lemma {:induction false} SplitPrefix(p: string, t: string)
    requires '.' !in p
    ensures Split(p + t) == [p + Split(t)[0]] + Split(t)[1..]
  {
    if |p| > 0 {
      assert p[0] != '.' by { assert p[0] in p; }
      forall i | 0 <= i < |p[1..]|
        ensures p[1..][i] != '.'
      {
        assert p[1..][i] == p[i + 1] && p[i + 1] in p;
      }
      SplitPrefix(p[1..], t);
      assert (p + t)[1..] == p[1..] + t;
      assert [p[0]] + (p[1..] + Split(t)[0]) == p + Split(t)[0];
    } else {
      var st := Split(t);
      assert p + t == t && p + st[0] == st[0];
      assert st == [st[0]] + st[1..];
    }
  }

  /** Splitting what was joined gives the pieces back, when no piece holds
      a dot. */
  lemma {:induction false} SplitJoin(parts: seq<string>)
    requires |parts| > 0 && forall i :: 0 <= i < |parts| ==> '.' !in parts[i]
    ensures Split(Join(parts)) == parts
  {
    if |parts| == 1 {
      SplitPrefix(parts[0], "");
      assert parts[0] + "" == parts[0];
    } else {
      var rest := Join(parts[1..]);
      SplitJoin(parts[1..]);
      SplitPrefix(parts[0], "." + rest);
      assert ("." + rest)[1..] == rest;
      assert parts[0] + "." + rest == parts[0] + ("." + rest);
      var st := Split("." + rest);
      assert st == [""] + parts[1..];
      assert parts[0] + st[0] == parts[0];
      assert parts == [parts[0]] + st[1..];
    }
  }

  /** Every piece parsed, or nothing. */
  function ParseAll(parts: seq<string>): (r: Option<seq<nat>>)
    ensures r.Some? <==> forall i :: 0 <= i < |parts| ==> ParseNat(parts[i]).Some?
    ensures r.Some? ==> |r.value| == |parts| && forall i :: 0 <= i < |parts| ==> ParseNat(parts[i]) == Some(r.value[i])
  {
    if |parts| == 0 then Some([])
    else
      match ParseNat(parts[0])
      case None => None
      case Some(n) =>
        match ParseAll(parts[1..])
        case None =>
          assert forall i :: 1 <= i < |parts| ==> parts[i] == parts[1..][i - 1];
          None
        case Some(ns) =>
          assert forall i :: 1 <= i < |parts| ==> parts[i] == parts[1..][i - 1];
          Some([n] + ns)
  }

  /** The version components written out: `".".join(str(v) for v in vs)`. */
  function Dotted(vs: seq<nat>): (r: string)
    requires |vs| > 0
  {
    Join(seq(|vs|, i requires 0 <= i < |vs| => Render(vs[i])))
  }

  /** A dotted version parses back to its components. */
  lemma DottedParses(vs: seq<nat>)
    requires |vs| > 0
    ensures ParseAll(Split(Dotted(vs))) == Some(vs)
  {
    var parts := seq(|vs|, i requires 0 <= i < |vs| => Render(vs[i]));
    forall i | 0 <= i < |parts|
      ensures '.' !in parts[i] && ParseNat(parts[i]) == Some(vs[i])
    {
      ParseRender(vs[i]);
      forall j | 0 <= j < |parts[i]|
        ensures parts[i][j] != '.'
      {
        assert IsDigit(parts[i][j]);
      }
    }
    SplitJoin(parts);
    assert Dotted(vs) == Join(parts);
    var r := ParseAll(parts);
    assert r.Some? && |r.value| == |vs|;
    assert forall i :: 0 <= i < |vs| ==> r.value[i] == vs[i];
    assert r.value == vs;
  }

  // ---------------------------------------------------------------------
  // Caret constraints

  /** Which component the upper bound raises: the first nonzero one among the
      first three, as long as a later component exists; the first
      otherwise. */
  function BumpAt(lower: seq<nat>): (r: nat)
    requires 0 < |lower| <= 3
    ensures r < |lower|
    ensures forall i :: 0 <= i < r ==> lower[i] == 0
    ensures r == 0 <==> lower[0] != 0 || |lower| == 1
    ensures r == 2 <==> |lower| == 3 && lower[0] == 0 && lower[1] == 0
  {
    if lower[0] == 0 && |lower| > 1 then
      if lower[1] == 0 && |lower| > 2 then 2 else 1
    else 0
  }

  /** The exclusive upper bound: three components, zeros before the bumped
      one, which is raised by one, and zeros after it. */
  function Upper(lower: seq<nat>): (r: seq<nat>)
    requires 0 < |lower| <= 3
    ensures |r| == 3
    ensures forall i :: 0 <= i < 3 ==> r[i] == (if i == BumpAt(lower) then lower[i] + 1 else 0)
  {
    var b := BumpAt(lower);
    seq(b, _ => 0) + [lower[b] + 1] + seq(2 - b, _ => 0)
  }

  /** `a` comes before `b` in the order of version components (a proper
      prefix comes first). */
  predicate LexLess(a: seq<nat>, b: seq<nat>) {
    exists k :: 0 <= k <= |a| && k <= |b| && a[..k] == b[..k] && (k == |a| ==> k < |b|) && (k < |a| && k < |b| ==> a[k] < b[k])
  }

  /** The lower bound comes before the upper bound. */
  lemma LowerBelowUpper(lower: seq<nat>)
    requires 0 < |lower| <= 3
    ensures LexLess(lower, Upper(lower))
  {
    var b := BumpAt(lower);
    var u := Upper(lower);
    assert lower[..b] == u[..b];
    assert b < |lower| && lower[b] < u[b];
  }

  /** Why a caret constraint cannot be read: a component that is not a
      number (`int` raises `ValueError`). */
  datatype VersionError = InvalidComponent

  /** The first three components of a caret constraint, or the refusal. */
  function Lower(spec: string): (r: Result<seq<nat>, VersionError>)
    requires |spec| > 0 && spec[0] == '^'
    ensures r.Success? ==> 0 < |r.value| <= 3
    ensures r.Success? <==> ParseAll(Split(spec[1..])).Some?
    ensures r.Success? ==> var vs := ParseAll(Split(spec[1..])).value;
              |r.value| == (if |vs| < 3 then |vs| else 3) && r.value == vs[..|r.value|]
  {
    match ParseAll(Split(spec[1..]))
    case None => Failure(InvalidComponent)
    case Some(vs) => Success(if |vs| < 3 then vs else vs[..3])
  }

  /** `_convert_version_spec`: a constraint without a caret is kept as it
      is; a caret constraint becomes `>=lower,<upper`. */
  function ConvertVersionSpec(spec: string): (r: Result<string, VersionError>)
    ensures !(|spec| > 0 && spec[0] == '^') ==> r == Success(spec)
    ensures |spec| > 0 && spec[0] == '^' ==> (r.Failure? <==> Lower(spec).Failure?)
    ensures |spec| > 0 && spec[0] == '^' && r.Success? ==>
              r.value == ">=" + Dotted(Lower(spec).value) + ",<" + Dotted(Upper(Lower(spec).value))
  {
    if !(|spec| > 0 && spec[0] == '^') then Success(spec)
    else
      match Lower(spec)
      case Failure(e) => Failure(e)
      case Success(lower) => Success(">=" + Dotted(lower) + ",<" + Dotted(Upper(lower)))
  }

  /** The two bounds of a converted constraint read back as version
      components: the lower one as the first three of the constraint's,
      the upper one with three components, and the lower one first. */
  lemma ConvertReadsBack(spec: string)
    requires |spec| > 0 && spec[0] == '^' && ConvertVersionSpec(spec).Success?
    ensures var lower := Lower(spec).value;
            var upper := Upper(lower);
            && ConvertVersionSpec(spec).value == ">=" + Dotted(lower) + ",<" + Dotted(upper)
            && ParseAll(Split(Dotted(lower))) == Some(lower)
            && ParseAll(Split(Dotted(upper))) == Some(upper)
            && |upper| == 3 && LexLess(lower, upper)
  {
    var lower := Lower(spec).value;
    DottedParses(lower);
    DottedParses(Upper(lower));
    LowerBelowUpper(lower);
  }

  /** Worked conversions: "^1.2.3" gives ">=1.2.3,<2.0.0" and "^0.0.3"
      gives ">=0.0.3,<0.0.4". */
  lemma Examples()
    ensures Upper([1, 2, 3]) == [2, 0, 0]
    ensures Upper([0, 2, 3]) == [0, 3, 0]
    ensures Upper([0, 0, 3]) == [0, 0, 4]
    ensures Upper([0]) == [1, 0, 0]
    ensures Dotted([2, 0, 0]) == "2.0.0"
  {
    assert Render(2) == "2" && Render(0) == "0";
    assert seq(3, i requires 0 <= i < 3 => Render([2, 0, 0][i])) == ["2", "0", "0"];
    assert Join(["0"]) == "0";
    assert Join(["0", "0"]) == "0.0";
  }

  // ---------------------------------------------------------------------
  // Dependencies

  /** The dependencies that are listed: all but "python". */
  function Listed(deps: seq<(string, string)>): (r: seq<(string, string)>)
    ensures forall i :: 0 <= i < |r| ==> r[i] in deps && r[i].0 != "python"
    ensures forall d :: d in deps && d.0 != "python" ==> d in r
  {
    if |deps| == 0 then []
    else if deps[0].0 == "python" then Listed(deps[1..])
    else [deps[0]] + Listed(deps[1..])
  }

  /** Listing keeps the order of the dependencies: the list of a
      concatenation is the concatenation of the lists. */
  lemma {:induction false} ListedConcat(a: seq<(string, string)>, b: seq<(string, string)>)
    ensures Listed(a + b) == Listed(a) + Listed(b)
  {
    if |a| > 0 {
      assert (a + b)[0] == a[0];
      assert (a + b)[1..] == a[1..] + b;
      ListedConcat(a[1..], b);
    } else {
      assert a + b == b;
    }
  }

  /** One listed dependency as written to the requirements: its name
      followed by its constraint, converted. */
  function Entry(d: (string, string)): (r: Result<string, VersionError>)
    ensures r.Success? <==> ConvertVersionSpec(d.1).Success?
    ensures r.Success? ==> r.value == d.0 + ConvertVersionSpec(d.1).value
  {
    match ConvertVersionSpec(d.1)
    case Failure(e) => Failure(e)
    case Success(spec) => Success(d.0 + spec)
  }

  /** Every constraint of `ds` can be read. */
  predicate AllRead(ds: seq<(string, string)>) {
    forall i :: 0 <= i < |ds| ==> Entry(ds[i]).Success?
  }

  /** `entries` holds the entry of each of `ds`, in order. */
  predicate EntriesOf(ds: seq<(string, string)>, entries: seq<string>) {
    |entries| == |ds| && forall i :: 0 <= i < |ds| ==> Entry(ds[i]) == Success(entries[i])
  }

  /** The entries of `ds` in order; the first constraint that cannot be
      read stops it. */
  function Entries(ds: seq<(string, string)>): (r: Result<seq<string>, VersionError>)
    ensures r.Success? <==> AllRead(ds)
    ensures r.Success? ==> EntriesOf(ds, r.value)
  {
    if |ds| == 0 then Success([])
    else
      assert forall i :: 1 <= i < |ds| ==> ds[i] == ds[1..][i - 1];
      match Entry(ds[0])
      case Failure(e) => Failure(e)
      case Success(entry) =>
        match Entries(ds[1..])
        case Failure(e) => Failure(e)
        case Success(entries) => Success([entry] + entries)
  }

  /** `_get_dependencies`: the entry of each listed dependency, in the order
      given; the first constraint that cannot be read stops it. */
  function Dependencies(deps: seq<(string, string)>): (r: Result<seq<string>, VersionError>)
    ensures r.Success? <==> AllRead(Listed(deps))
    ensures r.Success? ==> EntriesOf(Listed(deps), r.value)
  {
    Entries(Listed(deps))
  }
}
