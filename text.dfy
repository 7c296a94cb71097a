/** The Python string built-ins the server relies on: `str.strip`, `str(int)`,
    `str(list)` of integers, `str(tuple)` of integers, `str.endswith`,
    `str.find` and `str.rfind` for one character. */
module Text {
  import opened Errors

  // ---------------------------------------------------------------------------
  // Whitespace and str.strip()

  /** Python's `str.isspace()` for one character: the ASCII separators and
      every Unicode character whose category is Zs or whose bidirectional
      class is WS, B or S. */
  predicate IsSpace(c: char) {
    c == ' ' || c == '\t' || c == '\n' || c == '\r' || c == '\U{b}' || c == '\U{c}'
    || c == '\U{1c}' || c == '\U{1d}' || c == '\U{1e}' || c == '\U{1f}'
    || c == '\U{85}' || c == '\U{a0}' || c == '\U{1680}'
    || ('\U{2000}' <= c <= '\U{200a}')
    || c == '\U{2028}' || c == '\U{2029}' || c == '\U{202f}' || c == '\U{205f}' || c == '\U{3000}'
  }

  predicate AllSpace(s: string) {
    forall k :: 0 <= k < |s| ==> IsSpace(s[k])
  }

  /** `s` is empty or whitespace only (the same as `AllSpace`, by recursion). */
  predicate IsBlank(s: string) {
    s == [] || (IsSpace(s[0]) && IsBlank(s[1..]))
  }

  lemma {:induction false} BlankIff(s: string)
    ensures IsBlank(s) <==> AllSpace(s)
  {
    if s != [] {
      BlankIff(s[1..]);
      assert forall k :: 1 <= k < |s| ==> s[k] == s[1..][k - 1];
    }
  }

  /** `s.lstrip()`: drops the leading whitespace, keeps the rest. */
  function LStrip(s: string): (r: string)
    ensures |r| <= |s|
  {
    if s == [] || !IsSpace(s[0]) then s else LStrip(s[1..])
  }

  lemma {:induction false} LStripFacts(s: string)
    ensures var r := LStrip(s);
      r == s[|s| - |r|..] && AllSpace(s[..|s| - |r|]) && (r == [] || !IsSpace(r[0]))
  {
    if s != [] && IsSpace(s[0]) {
      var r := LStrip(s[1..]);
      LStripFacts(s[1..]);
      assert s[1..][..|s[1..]| - |r|] == s[1..|s| - |r|];
    }
  }

  /** `s.rstrip()`: drops the trailing whitespace, keeps the rest. */
  function RStrip(s: string): (r: string)
    ensures |r| <= |s|
  {
    if s == [] || !IsSpace(s[|s| - 1]) then s else RStrip(s[..|s| - 1])
  }

  lemma {:induction false} RStripFacts(s: string)
    ensures var r := RStrip(s);
      r == s[..|r|] && AllSpace(s[|r|..]) && (r == [] || !IsSpace(r[|r| - 1]))
  {
    if s != [] && IsSpace(s[|s| - 1]) {
      var r := RStrip(s[..|s| - 1]);
      RStripFacts(s[..|s| - 1]);
      assert s[..|s| - 1][|r|..] == s[|r|..|s| - 1];
      assert r == s[..|r|] by {
        assert s[..|s| - 1][..|r|] == s[..|r|];
      }
      assert AllSpace(s[|r|..]) by {
        forall k | 0 <= k < |s| - |r| ensures IsSpace(s[|r|..][k]) {
          assert s[|r|..][k] == s[|r| + k];
          if k < |s| - 1 - |r| {
            assert s[|r|..|s| - 1][k] == s[|r| + k];
          }
        }
      }
    }
  }

  /** `s.strip()`: the text between the leading and the trailing whitespace.
      It is empty exactly when `s` is blank. */
  function Strip(s: string): (r: string)
    ensures |r| <= |s|
    ensures r == [] <==> IsBlank(s)
    ensures r == [] || (!IsSpace(r[0]) && !IsSpace(r[|r| - 1]))
  {
    var l := LStrip(s);
    var r := RStrip(l);
    LStripFacts(s);
    RStripFacts(l);
    assert r == [] ==> s == s[..|s| - |l|] + l && AllSpace(l);
    BlankIff(s);
    r
  }

  // ---------------------------------------------------------------------------
  // Substrings

  predicate StartsWith(s: string, prefix: string) {
    |prefix| <= |s| && s[..|prefix|] == prefix
  }

  /** `s.endswith(suffix)`. */
  predicate EndsWith(s: string, suffix: string) {
    |suffix| <= |s| && s[|s| - |suffix|..] == suffix
  }

  /** `t` occurs in `s` starting at position `k`. */
  predicate OccursAt(s: string, t: string, k: int) {
    0 <= k && k + |t| <= |s| && s[k..k + |t|] == t
  }

  /** A string starts with its first part. */
  lemma OccursAtStart(t: string, r: string)
    ensures OccursAt(t + r, t, 0)
  {
    assert (t + r)[..|t|] == t;
  }

  /** What occurs in a string still occurs there, further on, once
      something is put in front. */
  lemma OccursShift(a: string, s: string, t: string, k: int)
    requires OccursAt(s, t, k)
    ensures OccursAt(a + s, t, |a| + k)
  {
    assert (a + s)[|a| + k..|a| + k + |t|] == s[k..k + |t|];
  }

  /** `s.find(c)`: the first position of `c`, or -1. */
  function IndexOf(s: string, c: char): (r: int)
    ensures -1 <= r < |s|
    ensures r >= 0 ==> s[r] == c
    ensures forall j :: 0 <= j < |s| && (r < 0 || j < r) ==> s[j] != c
  {
    if s == [] then -1
    else if s[0] == c then 0
    else
      var k := IndexOf(s[1..], c);
      if k < 0 then -1 else k + 1
  }

  /** `s.rfind(c)`: the last position of `c`, or -1. */
  function LastIndexOf(s: string, c: char): (r: int)
    ensures -1 <= r < |s|
    ensures r >= 0 ==> s[r] == c
    ensures forall j :: r < j < |s| ==> s[j] != c
  {
    if s == [] then -1
    else if s[|s| - 1] == c then |s| - 1
    else LastIndexOf(s[..|s| - 1], c)
  }

  lemma IndexOfPastPrefix(a: string, b: string, c: char)
    requires forall j :: 0 <= j < |a| ==> a[j] != c
    requires b != [] && b[0] == c
    ensures IndexOf(a + b, c) == |a|
  {
    assert (a + b)[|a|] == c;
    assert forall j :: 0 <= j < |a| ==> (a + b)[j] == a[j];
  }

  lemma LastIndexOfBeforeSuffix(a: string, b: string, c: char)
    requires |a| > 0 && a[|a| - 1] == c
    requires forall j :: 0 <= j < |b| ==> b[j] != c
    ensures LastIndexOf(a + b, c) == |a| - 1
  {
    var s := a + b;
    assert s[|a| - 1] == c;
    assert forall j :: |a| <= j < |s| ==> s[j] == b[j - |a|];
  }

  // ---------------------------------------------------------------------------
  // Decimal integers: str(int) and int(str)

  predicate IsDigit(c: char) {
    '0' <= c <= '9'
  }

  predicate AllDigits(s: string) {
    forall k :: 0 <= k < |s| ==> IsDigit(s[k])
  }

  function DigitChar(d: nat): (c: char)
    requires d < 10
    ensures IsDigit(c)
  {
    ('0' as int + d) as char
  }

  function DigitValue(c: char): (d: nat)
    requires IsDigit(c)
    ensures d < 10 && DigitChar(d) == c
  {
    c as int - '0' as int
  }

  /** `str(n)` for a natural number: its decimal digits, most significant
      first, without leading zeros. */
  function NatToString(n: nat): (r: string)
    ensures |r| >= 1 && AllDigits(r)
    ensures r[0] == '0' ==> n == 0
  {
    if n < 10 then [DigitChar(n)]
    else NatToString(n / 10) + [DigitChar(n % 10)]
  }

  /** The value of a non-empty run of decimal digits. */
  function ParseNat(s: string): nat
    requires |s| >= 1 && AllDigits(s)
  {
    if |s| == 1 then DigitValue(s[0])
    else 10 * ParseNat(s[..|s| - 1]) + DigitValue(s[|s| - 1])
  }

  lemma {:induction false} NatRoundTrip(n: nat)
    ensures ParseNat(NatToString(n)) == n
  {
    if n >= 10 {
      var s := NatToString(n);
      assert s[..|s| - 1] == NatToString(n / 10);
      NatRoundTrip(n / 10);
    }
  }

  /** `str(i)` for any integer: a minus sign before the digits of a negative. */
  function IntToString(i: int): (r: string)
    ensures |r| >= 1
    ensures forall k :: 0 <= k < |r| ==> IsDigit(r[k]) || (k == 0 && r[k] == '-')
  {
    if i < 0 then "-" + NatToString(-i) else NatToString(i)
  }

  /** `int(s)` restricted to an optional minus sign followed by digits. */
  function ParseInt(s: string): Option<int> {
    if |s| >= 2 && s[0] == '-' && AllDigits(s[1..]) then Some(0 - ParseNat(s[1..]))
    else if |s| >= 1 && AllDigits(s) then Some(ParseNat(s))
    else None
  }

  /** Rendering an integer in decimal loses nothing: parsing gives it back. */
  lemma IntRoundTrip(i: int)
    ensures ParseInt(IntToString(i)) == Some(i)
  {
    if i < 0 {
      assert IntToString(i)[1..] == NatToString(-i);
      NatRoundTrip(-i);
    } else {
      NatRoundTrip(i);
    }
  }

  // ---------------------------------------------------------------------------
  // str(list) and str(tuple) of integers (json.dumps agrees on integer lists)

  /** The items of an integer list as Python prints them: separated by ", ". */
  function JoinInts(l: seq<int>): (r: string)
    ensures l != [] ==> |r| >= 1
    ensures forall k :: 0 <= k < |r| ==> r[k] != '\'' && r[k] != '\n'
  {
    if l == [] then ""
    else if |l| == 1 then IntToString(l[0])
    else IntToString(l[0]) + ", " + JoinInts(l[1..])
  }

  /** `str(l)` for a list of integers, e.g. `[1, 2, 3]`. */
  function IntListText(l: seq<int>): (r: string)
    ensures |r| >= 2 && r[0] == '[' && r[|r| - 1] == ']'
    ensures forall k :: 0 <= k < |r| ==> r[k] != '\'' && r[k] != '\n'
  {
    "[" + JoinInts(l) + "]"
  }

  /** `str(t)` for a tuple of integers: `()`, `(5,)`, `(2, 3)`. */
  function IntTupleText(t: seq<int>): string {
    "(" + JoinInts(t) + (if |t| == 1 then "," else "") + ")"
  }

  /** Reads back the items of a list printed by `JoinInts`. */
  function ParseItems(t: string): Option<seq<int>>
    decreases |t|
  {
    var k := IndexOf(t, ',');
    if k < 0 then
      match ParseInt(t)
      case Some(x) => Some([x])
      case None => None
    else if k + 1 < |t| && t[k + 1] == ' ' then
      match ParseInt(t[..k])
      case None => None
      case Some(x) =>
        match ParseItems(t[k + 2..])
        case None => None
        case Some(xs) => Some([x] + xs)
    else None
  }

  /** Reads back a list printed by `IntListText`. */
  function ParseIntList(s: string): Option<seq<int>> {
    if |s| >= 2 && s[0] == '[' && s[|s| - 1] == ']' then
      var inner := s[1..|s| - 1];
      if inner == "" then Some([]) else ParseItems(inner)
    else None
  }

  lemma {:induction false} ItemsRoundTrip(l: seq<int>)
    requires l != []
    ensures ParseItems(JoinInts(l)) == Some(l)
  {
    var a := IntToString(l[0]);
    IntRoundTrip(l[0]);
    if |l| == 1 {
      assert JoinInts(l) == a;
      assert IndexOf(a, ',') < 0;
      assert l == [l[0]];
    } else {
      var rest := JoinInts(l[1..]);
      var t := a + ", " + rest;
      assert t == a + (", " + rest);
      IndexOfPastPrefix(a, ", " + rest, ',');
      assert t[..|a|] == a;
      assert t[|a| + 2..] == rest;
      ItemsRoundTrip(l[1..]);
      assert [l[0]] + l[1..] == l;
    }
  }

  /** Printing an integer list loses nothing: parsing gives it back, so two
      different lists never print the same. */
  lemma IntListRoundTrip(l: seq<int>)
    ensures ParseIntList(IntListText(l)) == Some(l)
  {
    var s := IntListText(l);
    assert s[1..|s| - 1] == JoinInts(l);
    if l != [] {
      ItemsRoundTrip(l);
    }
  }
}
