/**
 * The JavaScript string operations the core relies on, written out over
 * `seq<char>`: `toLowerCase` (ASCII), `includes`, `startsWith`, the
 * "suffix after the last separator" regular expressions, `split` on one
 * character, `trim`, `String(n)` for integers, `parseInt(s, 10)` and
 * `padStart`.
 */
module Text {
  import opened Wrappers

  /** JavaScript truthiness of an optional string: present and non-empty. */
  predicate Truthy(s: Option<string>) {
    s.Some? && s.value != ""
  }

  /** The characters ECMAScript counts as WhiteSpace or LineTerminator (used by `trim`, `parseInt` and `Number`). */
  predicate IsJsSpace(c: char) {
    c == '\t' || c == '\n' || c == '\U{000B}' || c == '\U{000C}' || c == '\r' || c == ' '
    || c == '\U{00A0}' || c == '\U{1680}' || ('\U{2000}' <= c <= '\U{200A}')
    || c == '\U{2028}' || c == '\U{2029}' || c == '\U{202F}' || c == '\U{205F}'
    || c == '\U{3000}' || c == '\U{FEFF}'
  }

  predicate IsDigit(c: char) { '0' <= c <= '9' }

  function DigitValue(c: char): (d: nat)
    requires IsDigit(c)
    ensures d < 10
  {
    (c as int) - ('0' as int)
  }

  function DigitChar(d: nat): (c: char)
    requires d < 10
    ensures IsDigit(c) && DigitValue(c) == d
  {
    (('0' as int) + d) as char
  }

  /** ASCII lower-casing of one character. */
  function LowerChar(c: char): char {
    if 'A' <= c <= 'Z' then ((c as int) + 32) as char else c
  }

  /** `s.toLowerCase()`, restricted to the ASCII letters. */
  function Lower(s: string): (r: string)
    ensures |r| == |s|
    ensures forall i :: 0 <= i < |s| ==> r[i] == LowerChar(s[i])
  {
    if s == [] then [] else [LowerChar(s[0])] + Lower(s[1..])
  }

  /** `s.startsWith(prefix)`, which is what `s.indexOf(prefix) === 0` tests. */
  predicate StartsWith(s: string, prefix: string) {
    |prefix| <= |s| && s[..|prefix|] == prefix
  }

  /** `s.includes(sub)`: some window of `s` equals `sub`. */
  predicate Contains(s: string, sub: string) {
    StartsWith(s, sub) || (s != [] && Contains(s[1..], sub))
  }

  /** Only a string at least as long as `sub` contains it. */
  lemma {:induction false} ContainsIsNoLonger(s: string, sub: string)
    ensures Contains(s, sub) ==> |sub| <= |s|
  {
    if s != [] {
      ContainsIsNoLonger(s[1..], sub);
    }
  }

  /** The position of the last `c` in `s`. */
  function LastIndexOf(s: string, c: char): (r: Option<nat>)
    ensures r.Some? ==> r.value < |s| && s[r.value] == c
    ensures r.Some? ==> forall j :: r.value < j < |s| ==> s[j] != c
    ensures r.None? <==> c !in s
  {
    if s == [] then None
    else if s[|s| - 1] == c then Some(|s| - 1)
    else LastIndexOf(s[..|s| - 1], c)
  }

  /**
   * The capture of the regular expression `c([^c]+)$`: the non-empty run of
   * characters other than `c` that follows the last `c` and ends the string.
   */
  function TailAfterLast(s: string, c: char): (r: Option<string>)
    ensures r.Some? ==> |r.value| > 0 && c !in r.value
    ensures r.Some? ==> |r.value| < |s| && s == s[..|s| - |r.value| - 1] + [c] + r.value
    ensures r.None? <==> (c !in s || s[|s| - 1] == c)
  {
    match LastIndexOf(s, c)
    case None => None
    case Some(i) =>
      if i + 1 < |s| then
        assert s == s[..i] + [c] + s[i + 1..];
        Some(s[i + 1..])
      else None
  }

  /** The position of the first `c` in `s`. */
  function FirstIndexOf(s: string, c: char): (r: Option<nat>)
    ensures r.Some? ==> r.value < |s| && s[r.value] == c && c !in s[..r.value]
    ensures r.None? <==> c !in s
  {
    if s == [] then None
    else if s[0] == c then Some(0)
    else match FirstIndexOf(s[1..], c)
      case None => None
      case Some(i) => assert s[..i + 1] == [s[0]] + s[1..][..i]; Some(i + 1)
  }

  /** `s.split(c)` for a one-character separator: always at least one piece, none holding `c`. */
  function Split(s: string, c: char): (r: seq<string>)
    ensures |r| >= 1
    ensures forall k :: 0 <= k < |r| ==> c !in r[k]
    decreases |s|
  {
    match FirstIndexOf(s, c)
    case None => [s]
    case Some(i) => [s[..i]] + Split(s[i + 1..], c)
  }

  /** The text in front of the first `c`, or all of it when `c` does not occur. */
  function UpTo(s: string, c: char): (r: string)
    ensures |r| <= |s| && r == s[..|r|] && c !in r
    ensures c in s <==> |r| < |s|
    ensures |r| == |s| || s[|r|] == c
  {
    match FirstIndexOf(s, c)
    case None => s
    case Some(i) => s[..i]
  }

  /** The first piece of `split` is the text in front of the first separator. */
  lemma SplitHead(s: string, c: char)
    ensures Split(s, c)[0] == UpTo(s, c)
  {
  }

  /**
   * The first two pieces of `split`: the text in front of the first
   * separator, and, exactly when there is a separator, the text between the
   * first and the next one.
   */
  lemma SplitPieces(s: string, c: char)
    ensures Split(s, c)[0] == UpTo(s, c)
    ensures |Split(s, c)| > 1 <==> c in s
    ensures c in s ==> Split(s, c)[1] == UpTo(s[|UpTo(s, c)| + 1..], c)
  {
    match FirstIndexOf(s, c)
    case None =>
      assert Split(s, c) == [s] && UpTo(s, c) == s;
    case Some(i) =>
      SplitPiecesAt(s, c, i);
      assert |UpTo(s, c)| == i && c in s;
  }

  lemma SplitPiecesAt(s: string, c: char, i: nat)
    requires FirstIndexOf(s, c) == Some(i)
    ensures i < |s| && s[i] == c && UpTo(s, c) == s[..i]
    ensures |Split(s, c)| > 1 && Split(s, c)[0] == s[..i] && Split(s, c)[1] == UpTo(s[i + 1..], c)
  {
    var rest := s[i + 1..];
    assert Split(s, c) == [s[..i]] + Split(rest, c);
    SplitHead(rest, c);
  }

  /** The first `c` is the one with no `c` in front of it. */
  lemma {:induction false} FirstIndexOfAt(s: string, c: char, k: nat)
    requires k < |s| && s[k] == c && c !in s[..k]
    ensures FirstIndexOf(s, c) == Some(k)
  {
    if k > 0 {
      assert s[0] in s[..k];
      assert s[1..][..k - 1] == s[1..k];
      assert forall x :: x in s[1..k] ==> x in s[..k];
      FirstIndexOfAt(s[1..], c, k - 1);
    }
  }

  /** Splitting at a first separator cuts off the piece in front of it. */
  lemma SplitAtFirst(a: string, c: char, b: string)
    requires c !in a
    ensures Split(a + [c] + b, c) == [a] + Split(b, c)
  {
    var s := a + [c] + b;
    assert s[..|a|] == a;
    FirstIndexOfAt(s, c, |a|);
    assert s[|a| + 1..] == b;
  }

  /** Without a separator, `split` yields the string itself. */
  lemma SplitNoSeparator(s: string, c: char)
    requires c !in s
    ensures Split(s, c) == [s]
  {
  }

  /** `parts.join(sep)`. */
  function Join(parts: seq<string>, sep: string): string {
    if |parts| == 0 then ""
    else if |parts| == 1 then parts[0]
    else parts[0] + sep + Join(parts[1..], sep)
  }

  /** Splitting and re-joining with the same separator gives back the string. */
  lemma {:induction false} JoinSplit(s: string, c: char)
    ensures Join(Split(s, c), [c]) == s
    decreases |s|
  {
    match FirstIndexOf(s, c)
    case None =>
    case Some(i) =>
      var rest := s[i + 1..];
      var tail := Split(rest, c);
      JoinSplit(rest, c);
      var r := [s[..i]] + tail;
      assert Split(s, c) == r;
      assert r[1..] == tail;
      JoinCons(s[..i], tail, [c]);
      assert s == s[..i] + [c] + rest;
  }

  lemma JoinCons(head: string, tail: seq<string>, sep: string)
    requires |tail| >= 1
    ensures Join([head] + tail, sep) == head + sep + Join(tail, sep)
  {
    var parts := [head] + tail;
    assert parts[0] == head && parts[1..] == tail;
  }

  /** `s.trimStart()`. */
  function TrimStart(s: string): (r: string)
    ensures |r| <= |s| && r == s[|s| - |r|..]
    ensures r != [] ==> !IsJsSpace(r[0])
    ensures forall k :: 0 <= k < |s| - |r| ==> IsJsSpace(s[k])
  {
    if s != [] && IsJsSpace(s[0]) then TrimStart(s[1..]) else s
  }

  /** `s.trimEnd()`. */
  function TrimEnd(s: string): (r: string)
    ensures |r| <= |s| && r == s[..|r|]
    ensures r != [] ==> !IsJsSpace(r[|r| - 1])
    ensures forall k :: |r| <= k < |s| ==> IsJsSpace(s[k])
  {
    if s != [] && IsJsSpace(s[|s| - 1]) then TrimEnd(s[..|s| - 1]) else s
  }

  /** `s.trim()`: no white space at either end, and what was cut was white space. */
  function Trim(s: string): string {
    TrimEnd(TrimStart(s))
  }

  /** The decimal digits of a natural number, most significant first, without leading zeros. */
  function NatToString(n: nat): (r: string)
    ensures |r| >= 1
    ensures forall k :: 0 <= k < |r| ==> IsDigit(r[k])
    ensures r[0] == '0' ==> n == 0 && |r| == 1
  {
    if n < 10 then [DigitChar(n)] else NatToString(n / 10) + [DigitChar(n % 10)]
  }

  /** `String(n)` for an integer `n`. */
  function IntToString(n: int): (r: string)
    ensures |r| >= 1
  {
    if n < 0 then "-" + NatToString(-n) else NatToString(n)
  }

  /** The value of a string of decimal digits. */
  function DigitsValue(s: string): nat
    requires forall k :: 0 <= k < |s| ==> IsDigit(s[k])
  {
    if s == [] then 0 else DigitsValue(s[..|s| - 1]) * 10 + DigitValue(s[|s| - 1])
  }

  /** The length of the longest prefix of `s` made of decimal digits. */
  function DigitRun(s: string): (n: nat)
    ensures n <= |s|
    ensures forall k :: 0 <= k < n ==> IsDigit(s[k])
    ensures n < |s| ==> !IsDigit(s[n])
  {
    if s == [] || !IsDigit(s[0]) then 0 else 1 + DigitRun(s[1..])
  }

  /** The value of the digit run at the start of `u`, or `None` when `u` does not start with a digit. */
  function ParseDigits(u: string): (r: Option<nat>)
    ensures r.None? <==> (u == [] || !IsDigit(u[0]))
  {
    var n := DigitRun(u);
    if n == 0 then None else Some(DigitsValue(u[..n]))
  }

  /**
   * `parseInt(s, 10)`: leading white space is skipped, one sign is read, then
   * the longest run of digits; `None` stands for `NaN` (no digit at all).
   */
  function ParseInt(s: string): (r: Option<int>)
    ensures r.None? <==> (var t := TrimStart(s);
                          var u := if t != [] && (t[0] == '-' || t[0] == '+') then t[1..] else t;
                          u == [] || !IsDigit(u[0]))
  {
    var t := TrimStart(s);
    if t != [] && t[0] == '-' then
      match ParseDigits(t[1..])
      case None => None
      case Some(v) => var w: int := v; Some(-w)
    else if t != [] && t[0] == '+' then
      match ParseDigits(t[1..])
      case None => None
      case Some(v) => Some(v)
    else
      match ParseDigits(t)
      case None => None
      case Some(v) => Some(v)
  }

  lemma {:induction false} DigitsValueOfNatToString(n: nat)
    ensures DigitsValue(NatToString(n)) == n
  {
    if n >= 10 {
      DigitsValueOfNatToString(n / 10);
      var s := NatToString(n);
      assert s[..|s| - 1] == NatToString(n / 10);
    }
  }

  /** `parseInt(String(n), 10) === n` for every integer `n`. */
  lemma ParseIntOfIntToString(n: int)
    ensures ParseInt(IntToString(n)) == Some(n)
  {
    if n < 0 {
      ParseIntOfNegative(-n);
    } else {
      ParseIntOfNat(n);
    }
  }

  lemma ParseIntOfNat(m: nat)
    ensures ParseInt(NatToString(m)) == Some(m)
  {
    DigitsValueOfNatToString(m);
    ParseIntOfPlainDigits(NatToString(m));
  }

  lemma ParseIntOfNegative(m: nat)
    ensures ParseInt("-" + NatToString(m)) == Some(-(m as int))
  {
    var u := NatToString(m);
    DigitsValueOfNatToString(m);
    ParseIntOfNegativeDigits(u);
    assert ParseInt("-" + u) == Some(-(m as int));
  }

  /** A run of digits reads as its value. */
  lemma ParseIntOfPlainDigits(u: string)
    requires |u| >= 1 && forall k :: 0 <= k < |u| ==> IsDigit(u[k])
    ensures ParseInt(u) == Some(DigitsValue(u))
  {
    assert !IsJsSpace(u[0]);
    assert TrimStart(u) == u;
    ParseDigitsOfDigits(u);
  }

  /** A minus sign and a run of digits read as the negated value. */
  lemma ParseIntOfNegativeDigits(u: string)
    requires |u| >= 1 && forall k :: 0 <= k < |u| ==> IsDigit(u[k])
    ensures ParseInt("-" + u) == Some(-(DigitsValue(u) as int))
  {
    var s := "-" + u;
    assert s[0] == '-' && s[1..] == u;
    ParseIntOfMinus(s, u);
  }

  /** A text whose first character is a minus sign and whose rest is a run of digits. */
  lemma ParseIntOfMinus(s: string, u: string)
    requires |u| >= 1 && forall k :: 0 <= k < |u| ==> IsDigit(u[k])
    requires |s| >= 1 && s[0] == '-' && s[1..] == u
    ensures ParseInt(s) == Some(-(DigitsValue(u) as int))
  {
    assert !IsJsSpace(s[0]);
    assert TrimStart(s) == s;
    ParseDigitsOfDigits(u);
    var v: int := -(DigitsValue(u) as int);
    var r := ParseInt(s);
    assert r.Some? && r.value == v;
    assert r == Some(v);
  }

  lemma ParseDigitsOfDigits(u: string)
    requires |u| >= 1 && forall k :: 0 <= k < |u| ==> IsDigit(u[k])
    ensures ParseDigits(u) == Some(DigitsValue(u))
  {
    DigitRunOfDigits(u);
    assert u[..|u|] == u;
  }

  lemma {:induction false} DigitRunOfDigits(u: string)
    requires forall k :: 0 <= k < |u| ==> IsDigit(u[k])
    ensures DigitRun(u) == |u|
  {
    if u != [] {
      DigitRunOfDigits(u[1..]);
    }
  }

  /** `s.padStart(width, c)`: `c` repeated in front until the length reaches `width`. */
  function PadStart(s: string, width: nat, c: char): (r: string)
    ensures |r| == if |s| < width then width else |s|
    ensures r[|r| - |s|..] == s
    ensures forall k :: 0 <= k < |r| - |s| ==> r[k] == c
  {
    if |s| < width then seq(width - |s|, _ => c) + s else s
  }

  lemma {:induction false} NatToStringLength(n: nat)
    ensures (|NatToString(n)| == 1) <==> (n < 10)
  {
    if n >= 10 {
      var t := NatToString(n / 10);
      assert |NatToString(n)| == |t| + 1;
    }
  }
}
