/**
 * The JavaScript string primitives the script relies on, over strings of
 * Unicode scalar values: `indexOf`, `replace` with a string pattern,
 * `split` and `join` with a separator, `trim`, the decimal rendering of a
 * count in a template literal and `Number` applied to that rendering.
 */
module Text {
  import opened Wrappers

  /** `pat` occurs in `s` starting at index `i`. */
  predicate OccursAt(s: string, pat: string, i: nat) {
    i + |pat| <= |s| && s[i..i + |pat|] == pat
  }

  /** `i` is the first index at which `pat` occurs in `s`. */
  predicate FirstOccurrence(s: string, pat: string, i: nat) {
    OccursAt(s, pat, i) && forall j: nat :: j < i ==> !OccursAt(s, pat, j)
  }

  ghost predicate Contains(s: string, pat: string) {
    exists i: nat :: OccursAt(s, pat, i)
  }

  /** `s.indexOf(pat)`, with None standing for -1. */
  function IndexOf(s: string, pat: string): (r: Option<nat>)
    ensures r.Some? ==> FirstOccurrence(s, pat, r.value)
    ensures r.None? <==> !Contains(s, pat)
    decreases |s|
  {
    if |s| < |pat| then
      assert forall j: nat :: !OccursAt(s, pat, j);
      None
    else if s[..|pat|] == pat then
      assert OccursAt(s, pat, 0);
      Some(0)
    else
      match IndexOf(s[1..], pat)
      case None =>
        NotInTail(s, pat);
        None
      case Some(k) =>
        FirstInTail(s, pat, k);
        Some(k + 1)
  }

  lemma NotInTail(s: string, pat: string)
    requires |pat| <= |s| && s[..|pat|] != pat && !Contains(s[1..], pat)
    ensures !Contains(s, pat)
  {
    assert forall j: nat :: OccursAt(s, pat, j + 1) ==> OccursAt(s[1..], pat, j);
    forall j: nat ensures !OccursAt(s, pat, j) {
      if j > 0 {
        assert !OccursAt(s[1..], pat, j - 1);
      }
    }
  }

  lemma FirstInTail(s: string, pat: string, k: nat)
    requires |pat| <= |s| && s[..|pat|] != pat && FirstOccurrence(s[1..], pat, k)
    ensures FirstOccurrence(s, pat, k + 1)
  {
    assert s[k + 1..k + 1 + |pat|] == s[1..][k..k + |pat|];
    assert forall j: nat :: OccursAt(s, pat, j + 1) ==> OccursAt(s[1..], pat, j);
    forall j: nat | j < k + 1 ensures !OccursAt(s, pat, j) {
      if j > 0 {
        assert !OccursAt(s[1..], pat, j - 1);
      }
    }
  }

  /** `s.replace(pat, rep)` with a string pattern: only the first occurrence is replaced. */
  function ReplaceFirst(s: string, pat: string, rep: string): (r: string)
    ensures !Contains(s, pat) ==> r == s
    ensures forall i: nat {:trigger FirstOccurrence(s, pat, i)} ::
      FirstOccurrence(s, pat, i) ==> r == s[..i] + rep + s[i + |pat|..]
  {
    match IndexOf(s, pat)
    case None => s
    case Some(i) =>
      assert forall j: nat :: FirstOccurrence(s, pat, j) ==> j == i;
      s[..i] + rep + s[i + |pat|..]
  }

  /**
   * A pattern whose first character does not occur in `a` is found first
   * right after `a`.
   */
  lemma IndexOfAfter(a: string, pat: string, b: string)
    requires |pat| > 0 && forall k :: 0 <= k < |a| ==> a[k] != pat[0]
    ensures IndexOf(a + pat + b, pat) == Some(|a|)
  {
    var s := a + pat + b;
    assert s[|a|..|a| + |pat|] == pat;
    assert OccursAt(s, pat, |a|);
    forall j: nat | j < |a| ensures !OccursAt(s, pat, j) {
      assert s[j] == a[j];
      assert j + |pat| <= |s| ==> s[j..j + |pat|][0] == a[j];
    }
    assert FirstOccurrence(s, pat, |a|);
  }

  /** The text before and the text after the first occurrence of `sep`, if any. */
  function Cut(s: string, sep: string): (r: Option<(string, string)>)
    ensures r.None? <==> !Contains(s, sep)
    ensures r.Some? ==> s == r.value.0 + sep + r.value.1 && FirstOccurrence(s, sep, |r.value.0|)
  {
    match IndexOf(s, sep)
    case None => None
    case Some(i) =>
      assert s == s[..i] + sep + s[i + |sep|..];
      Some((s[..i], s[i + |sep|..]))
  }

  /** Cutting `a + sep + b` at `sep` gives back `a` and `b` when `a` holds no first character of `sep`. */
  lemma CutAfter(a: string, sep: string, b: string)
    requires |sep| > 0 && forall k :: 0 <= k < |a| ==> a[k] != sep[0]
    ensures Cut(a + sep + b, sep) == Some((a, b))
  {
    IndexOfAfter(a, sep, b);
    var s := a + sep + b;
    assert s[..|a|] == a;
    assert s[|a| + |sep|..] == b;
  }

  /** The text before the first occurrence of `sep` holds no occurrence of `sep`. */
  lemma CutPrefixFree(s: string, sep: string)
    requires |sep| > 0 && Cut(s, sep).Some?
    ensures !Contains(Cut(s, sep).value.0, sep)
  {
    var a := Cut(s, sep).value.0;
    forall j: nat ensures !OccursAt(a, sep, j) {
      if OccursAt(a, sep, j) {
        assert a[j..j + |sep|] == s[j..j + |sep|];
        assert OccursAt(s, sep, j);
      }
    }
  }

  /** A text none of whose characters is the first one of `sep` holds no `sep`. */
  lemma NotContainsFree(a: string, sep: string)
    requires |sep| > 0 && forall k :: 0 <= k < |a| ==> a[k] != sep[0]
    ensures !Contains(a, sep)
  {
    forall j: nat ensures !OccursAt(a, sep, j) {
      if j + |sep| <= |a| {
        assert a[j..j + |sep|][0] == a[j];
      }
    }
  }

  /**
   * `s.split(sep)` for a non-empty separator: the pieces between
   * non-overlapping occurrences, left to right. The first piece is the
   * text before the first occurrence.
   */
  function Split(s: string, sep: string): (parts: seq<string>)
    requires |sep| > 0
    ensures |parts| >= 1
    ensures |parts[0]| <= |s| && parts[0] == s[..|parts[0]|]
    decreases |s|
  {
    match Cut(s, sep)
    case None => [s]
    case Some((a, b)) => [a] + Split(b, sep)
  }

  /** No piece of a split before the last holds the separator. */
  lemma FirstPieceFree(s: string, sep: string)
    requires |sep| > 0
    ensures !Contains(Split(s, sep)[0], sep)
  {
    if Cut(s, sep).Some? {
      CutPrefixFree(s, sep);
    }
  }

  /** The second piece of a split, when there is one, holds no separator either. */
  lemma SecondPieceFree(s: string, sep: string)
    requires |sep| > 0 && |Split(s, sep)| >= 2
    ensures !Contains(Split(s, sep)[1], sep)
  {
    match Cut(s, sep)
    case Some((a, b)) =>
      assert Split(s, sep) == [a] + Split(b, sep);
      FirstPieceFree(b, sep);
  }

  /** No character of any of `xs` is `c`. */
  predicate FreeOf(xs: seq<string>, c: char) {
    forall i, k :: 0 <= i < |xs| && 0 <= k < |xs[i]| ==> xs[i][k] != c
  }

  /** `xs.join(sep)`: the pieces in order, with `sep` between each two; it starts with the first piece. */
  function Join(xs: seq<string>, sep: string): (r: string)
    ensures |xs| > 0 ==> |xs[0]| <= |r| && r[..|xs[0]|] == xs[0]
    decreases |xs|
  {
    if |xs| == 0 then ""
    else if |xs| == 1 then xs[0]
    else
      var r := xs[0] + sep + Join(xs[1..], sep);
      assert r[..|xs[0]|] == xs[0];
      r
  }

  /** Joining pieces none of which holds the first character of the separator splits back into the same pieces. */
  lemma {:induction false} SplitOfJoin(xs: seq<string>, sep: string)
    requires |xs| > 0 && |sep| > 0 && FreeOf(xs, sep[0])
    ensures Split(Join(xs, sep), sep) == xs
    decreases |xs|
  {
    FreeOfTail(xs, sep[0]);
    if |xs| == 1 {
      NotContainsFree(xs[0], sep);
    } else {
      SplitOfJoin(xs[1..], sep);
      SplitAfter(xs[0], sep, Join(xs[1..], sep));
      assert xs == [xs[0]] + xs[1..];
    }
  }

  lemma FreeOfTail(xs: seq<string>, c: char)
    requires |xs| > 0 && FreeOf(xs, c)
    ensures FreeOf(xs[1..], c) && forall k :: 0 <= k < |xs[0]| ==> xs[0][k] != c
  {
    forall i, k | 0 <= i < |xs[1..]| && 0 <= k < |xs[1..][i]| ensures xs[1..][i][k] != c {
      assert xs[1..][i] == xs[i + 1];
    }
  }

  /** Splitting `a + sep + b`, where `a` holds no first character of `sep`, gives `a` and the pieces of `b`. */
  lemma SplitAfter(a: string, sep: string, b: string)
    requires |sep| > 0 && forall k :: 0 <= k < |a| ==> a[k] != sep[0]
    ensures Split(a + sep + b, sep) == [a] + Split(b, sep)
  {
    CutAfter(a, sep, b);
  }

  /** Joining the pieces of a split gives back the text. */
  lemma {:induction false} SplitJoin(s: string, sep: string)
    requires |sep| > 0
    ensures Join(Split(s, sep), sep) == s
    decreases |s|
  {
    match Cut(s, sep)
    case None =>
    case Some((a, b)) =>
      SplitJoin(b, sep);
      var rest := Split(b, sep);
      assert Split(s, sep) == [a] + rest;
      assert ([a] + rest)[1..] == rest;
  }

  /**
   * The characters `String.prototype.trim` removes: the WhiteSpace and
   * LineTerminator code points of ECMA-262 (tab, vertical tab, form feed,
   * no-break space, byte order mark, every space separator of category Zs,
   * line feed, carriage return, line and paragraph separators).
   */
  predicate IsSpace(c: char) {
    || c == '\t' || c == '\n' || c == '\U{000B}' || c == '\U{000C}' || c == '\r'
    || c == ' ' || c == '\U{00A0}' || c == '\U{1680}'
    || ('\U{2000}' <= c <= '\U{200A}')
    || c == '\U{2028}' || c == '\U{2029}' || c == '\U{202F}' || c == '\U{205F}'
    || c == '\U{3000}' || c == '\U{FEFF}'
  }

  /** `s` with its leading white space removed. */
  function TrimStart(s: string): (r: string)
    ensures |r| <= |s|
    decreases |s|
  {
    if |s| > 0 && IsSpace(s[0]) then TrimStart(s[1..]) else s
  }

  /** `s` with its trailing white space removed. */
  function TrimEnd(s: string): (r: string)
    ensures |r| <= |s|
    decreases |s|
  {
    if |s| > 0 && IsSpace(s[|s| - 1]) then TrimEnd(s[..|s| - 1]) else s
  }

  /** `s.trim()`: never longer than `s`, and neither starts nor ends with white space. */
  function Trim(s: string): (r: string)
    ensures |r| <= |s|
    ensures r == [] || (!IsSpace(r[0]) && !IsSpace(r[|r| - 1]))
  {
    TrimStartSpec(s);
    TrimEndSpec(TrimStart(s));
    assert TrimEnd(TrimStart(s)) == TrimStart(s)[..|TrimEnd(TrimStart(s))|];
    TrimEnd(TrimStart(s))
  }

  /** `TrimStart` keeps a suffix of `s` that does not start with a space and drops only spaces. */
  lemma {:induction false} TrimStartSpec(s: string)
    ensures var r := TrimStart(s);
      && r == s[|s| - |r|..]
      && (forall k :: 0 <= k < |s| - |r| ==> IsSpace(s[k]))
      && (r == [] || !IsSpace(r[0]))
    decreases |s|
  {
    if |s| > 0 && IsSpace(s[0]) {
      TrimStartSpec(s[1..]);
    }
  }

  /** `TrimEnd` keeps a prefix of `s` that does not end with a space and drops only spaces. */
  lemma {:induction false} TrimEndSpec(s: string)
    ensures var r := TrimEnd(s);
      && r == s[..|r|]
      && (forall k :: |r| <= k < |s| ==> IsSpace(s[k]))
      && (r == [] || !IsSpace(r[|r| - 1]))
    decreases |s|
  {
    if |s| > 0 && IsSpace(s[|s| - 1]) {
      TrimEndSpec(s[..|s| - 1]);
    }
  }

  /**
   * `s.trim()` is the piece of `s` between a run of leading and a run of
   * trailing spaces, and neither starts nor ends with a space.
   */
  lemma TrimSpec(s: string)
    ensures var t, lo := Trim(s), |s| - |TrimStart(s)|;
      && 0 <= lo && lo + |t| <= |s| && t == s[lo..lo + |t|]
      && (forall k :: 0 <= k < lo ==> IsSpace(s[k]))
      && (forall k :: lo + |t| <= k < |s| ==> IsSpace(s[k]))
      && (t == [] || (!IsSpace(t[0]) && !IsSpace(t[|t| - 1])))
  {
    var u := TrimStart(s);
    var t := Trim(s);
    TrimStartSpec(s);
    TrimEndSpec(u);
    var lo := |s| - |u|;
    assert t == s[lo..lo + |t|];
    forall k | lo + |t| <= k < |s| ensures IsSpace(s[k]) {
      assert s[k] == u[k - lo];
    }
  }

  /** Trimming a trimmed string changes nothing. */
  lemma TrimIdempotent(s: string)
    ensures Trim(Trim(s)) == Trim(s)
  {
    var u := TrimStart(s);
    var t := Trim(s);
    TrimStartSpec(s);
    TrimEndSpec(u);
    assert t == [] || (!IsSpace(t[0]) && !IsSpace(t[|t| - 1])) by {
      assert t == u[..|t|];
    }
    assert TrimStart(t) == t;
    assert TrimEnd(t) == t;
  }

  predicate IsDigit(c: char) {
    '0' <= c <= '9'
  }

  predicate AllDigits(s: string) {
    forall k :: 0 <= k < |s| ==> IsDigit(s[k])
  }

  /** The decimal text `${n}` gives for a non-negative integer count. */
  function NatToString(n: nat): (r: string)
    ensures |r| >= 1 && AllDigits(r)
    decreases n
  {
    var d := ['0' + ((n % 10) as char)];
    if n < 10 then d else NatToString(n / 10) + d
  }

  /** The value of a string of decimal digits. */
  function DecimalValue(s: string): nat
    requires AllDigits(s)
    decreases |s|
  {
    if s == [] then 0
    else 10 * DecimalValue(s[..|s| - 1]) + ((s[|s| - 1] - '0') as nat)
  }

  /**
   * `Number(s)` on the texts it is applied to here: a run of decimal digits
   * (the empty string reads as 0); every other text reads as NaN (None).
   */
  function Number(s: string): Option<nat> {
    if AllDigits(s) then Some(DecimalValue(s)) else None
  }

  /** `Number` reads back the count a template literal printed. */
  lemma {:induction false} NumberOfNatToString(n: nat)
    ensures Number(NatToString(n)) == Some(n)
    decreases n
  {
    var s := NatToString(n);
    if n >= 10 {
      NumberOfNatToString(n / 10);
      assert s[..|s| - 1] == NatToString(n / 10);
      assert (s[|s| - 1] - '0') as nat == n % 10;
      assert DecimalValue(s) == 10 * (n / 10) + n % 10;
    }
  }

  /** The UTF-16 code units of one character: itself, or a surrogate pair above U+FFFF. */
  function CharUnits(c: char): seq<int> {
    if c as int < 0x1_0000 then [c as int]
    else
      var v := c as int - 0x1_0000;
      [0xD800 + v / 0x400, 0xDC00 + v % 0x400]
  }

  /** The UTF-16 code units of a string, the sequence JavaScript compares strings by. */
  function CodeUnits(s: string): seq<int>
    decreases |s|
  {
    if s == [] then [] else CharUnits(s[0]) + CodeUnits(s[1..])
  }

  /** Lexicographic order on code-unit sequences: a proper prefix comes first. */
  predicate LexLess(a: seq<int>, b: seq<int>)
    decreases |a|
  {
    if |a| == 0 then |b| > 0
    else if |b| == 0 then false
    else if a[0] != b[0] then a[0] < b[0]
    else LexLess(a[1..], b[1..])
  }

  /** `a < b` for JavaScript strings: the order `Array.prototype.sort` uses without a comparator. */
  predicate CodeUnitLess(a: string, b: string) {
    LexLess(CodeUnits(a), CodeUnits(b))
  }

  lemma {:induction false} LexLessIrreflexive(a: seq<int>)
    ensures !LexLess(a, a)
    decreases |a|
  {
    if |a| > 0 {
      LexLessIrreflexive(a[1..]);
    }
  }

  lemma {:induction false} LexLessTransitive(a: seq<int>, b: seq<int>, c: seq<int>)
    requires LexLess(a, b) && LexLess(b, c)
    ensures LexLess(a, c)
    decreases |a|
  {
    if |a| > 0 && a[0] == b[0] && b[0] == c[0] {
      LexLessTransitive(a[1..], b[1..], c[1..]);
    }
  }

  /** Two different code-unit sequences are ordered one way or the other. */
  lemma {:induction false} LexLessTotal(a: seq<int>, b: seq<int>)
    requires a != b
    ensures LexLess(a, b) || LexLess(b, a)
    decreases |a|
  {
    if |a| > 0 && |b| > 0 && a[0] == b[0] {
      assert a == [a[0]] + a[1..] && b == [b[0]] + b[1..];
      LexLessTotal(a[1..], b[1..]);
    }
  }

  /**
   * The first code unit of a character tells its length: a character below
   * U+10000 is never a surrogate, and a pair starts with a high surrogate.
   */
  lemma CharUnitsInjective(c: char, d: char)
    requires CharUnits(c)[0] == CharUnits(d)[0]
    ensures CharUnits(c) == CharUnits(d) ==> c == d
    ensures |CharUnits(c)| == |CharUnits(d)|
  {
  }

  /** Different strings have different code units. */
  lemma {:induction false} CodeUnitsInjective(a: string, b: string)
    requires CodeUnits(a) == CodeUnits(b)
    ensures a == b
    decreases |a|
  {
    if a != [] && b != [] {
      var ua, ub := CharUnits(a[0]), CharUnits(b[0]);
      assert CodeUnits(a)[0] == ua[0] && CodeUnits(b)[0] == ub[0];
      CharUnitsInjective(a[0], b[0]);
      assert CodeUnits(a)[..|ua|] == ua && CodeUnits(b)[..|ub|] == ub;
      assert CodeUnits(a)[|ua|..] == CodeUnits(a[1..]);
      assert CodeUnits(b)[|ub|..] == CodeUnits(b[1..]);
      CodeUnitsInjective(a[1..], b[1..]);
      assert a == [a[0]] + a[1..] && b == [b[0]] + b[1..];
    }
  }

  /** Two different strings are ordered one way or the other. */
  lemma CodeUnitLessTotal(a: string, b: string)
    requires a != b
    ensures CodeUnitLess(a, b) || CodeUnitLess(b, a)
  {
    if CodeUnits(a) == CodeUnits(b) {
      CodeUnitsInjective(a, b);
    }
    LexLessTotal(CodeUnits(a), CodeUnits(b));
  }

  /** The string order is a strict order: irreflexive and transitive. */
  lemma CodeUnitLessIsStrict()
    ensures forall a :: !CodeUnitLess(a, a)
    ensures forall a, b, c :: CodeUnitLess(a, b) && CodeUnitLess(b, c) ==> CodeUnitLess(a, c)
  {
    forall a: string ensures !CodeUnitLess(a, a) {
      LexLessIrreflexive(CodeUnits(a));
    }
    forall a: string, b: string, c: string | CodeUnitLess(a, b) && CodeUnitLess(b, c)
      ensures CodeUnitLess(a, c)
    {
      LexLessTransitive(CodeUnits(a), CodeUnits(b), CodeUnits(c));
    }
  }
}
