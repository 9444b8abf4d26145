/** The small helpers of src/lib/utils.ts: name-spacing, clamping, time formatting and keyboard shortcut ids. */
module Utils {
  import opened Wrappers
  import opened Text

  /** The prefix every class name and storage key of the viewer carries. */
  const NsPrefix: string := "_tmv_"

  /** `ns(name)`: the name behind the viewer's prefix. */
  function Ns(name: string): (r: string)
    ensures |r| == |NsPrefix| + |name|
    ensures StartsWith(r, NsPrefix) && r[|NsPrefix|..] == name
  {
    NsPrefix + name
  }

  /** Distinct names stay distinct once name-spaced. */
  lemma NsInjective(a: string, b: string)
    requires Ns(a) == Ns(b)
    ensures a == b
  {
    assert a == Ns(a)[|NsPrefix|..];
  }

  /**
   * `clamp(min, value, max)` = `Math.max(min, Math.min(max, value))`
   * (numbers are reals here; `NaN` is not modelled).
   */
  function Clamp(lo: real, v: real, hi: real): (r: real)
    ensures lo <= hi ==> lo <= r <= hi
    ensures lo <= v <= hi ==> r == v
    ensures v < lo ==> r == lo
    ensures lo <= hi < v ==> r == hi
    ensures hi < lo ==> r == lo
  {
    var inner := if hi < v then hi else v;
    if lo < inner then inner else lo
  }

  /** `String(n).padStart(2, '0')`. */
  function Pad2(n: int): string {
    PadStart(IntToString(n), 2, '0')
  }

  /** A non-negative number below ten gains one leading zero; any other stays as it is. */
  lemma Pad2OfNat(n: nat)
    ensures Pad2(n) == if n < 10 then "0" + NatToString(n) else NatToString(n)
  {
    NatToStringLength(n);
    var s := NatToString(n);
    if n < 10 {
      assert PadStart(s, 2, '0') == seq(1, _ => '0') + s;
    }
  }

  /**
   * `formatSeconds(seconds)` for a whole number of seconds: `Math.floor`
   * division by 60 is Dafny's `/` (the divisor is positive), and the rounded
   * leftover is `seconds % 60`.
   */
  function FormatSeconds(seconds: int): (r: string)
    ensures |r| >= 5
    ensures ':' in r
  {
    var minutes := seconds / 60;
    var leftover := seconds % 60;
    var r := Pad2(minutes) + ":" + Pad2(leftover);
    assert r[|Pad2(minutes)|] == ':';
    r
  }

  /** The doc-comment example of the source: 90 seconds read "01:30". */
  lemma FormatNinetySeconds()
    ensures FormatSeconds(90) == "01:30"
  {
    assert 90 / 60 == 1 && 90 % 60 == 30;
    assert NatToString(1) == "1";
    assert NatToString(3) == "3";
    assert NatToString(30) == NatToString(3) + [DigitChar(0)];
    assert NatToString(30) == "30";
    Pad2OfNat(1);
    Pad2OfNat(30);
    assert Pad2(1) == "01";
    assert Pad2(30) == "30";
  }

  lemma {:induction false} DigitsValueLeadingZero(d: string)
    requires forall k :: 0 <= k < |d| ==> IsDigit(d[k])
    ensures DigitsValue("0" + d) == DigitsValue(d)
    decreases |d|
  {
    if d != [] {
      var z := "0" + d;
      assert z[..|z| - 1] == "0" + d[..|d| - 1];
      DigitsValueLeadingZero(d[..|d| - 1]);
    }
  }

  /** A zero-padded non-negative number is all digits and reads back as the number. */
  lemma ParsePad2(n: nat)
    ensures forall k :: 0 <= k < |Pad2(n)| ==> IsDigit(Pad2(n)[k])
    ensures ParseInt(Pad2(n)) == Some(n)
  {
    var s := NatToString(n);
    DigitsValueOfNatToString(n);
    Pad2OfNat(n);
    var p := Pad2(n);
    if n < 10 {
      DigitsValueLeadingZero(s);
      assert forall k :: 0 <= k < |p| ==> IsDigit(p[k]);
    }
    ParseIntOfPlainDigits(p);
  }

  /** Two padded numbers joined by a colon split back into the two numbers. */
  lemma PaddedPairRoundTrip(a: nat, b: nat)
    ensures var parts := Split(Pad2(a) + ":" + Pad2(b), ':');
            |parts| == 2 && ParseInt(parts[0]) == Some(a) && ParseInt(parts[1]) == Some(b)
  {
    var m, l := Pad2(a), Pad2(b);
    ParsePad2(a);
    ParsePad2(b);
    assert ':' !in m && ':' !in l;
    assert m + ":" + l == m + [':'] + l;
    SplitAtFirst(m, ':', l);
    SplitNoSeparator(l, ':');
  }

  /**
   * For a non-negative whole number of seconds the text splits at its one
   * colon into minutes and seconds, and reading them back recovers the input.
   */
  lemma FormatSecondsRoundTrip(seconds: nat)
    ensures var parts := Split(FormatSeconds(seconds), ':');
            |parts| == 2 && ParseInt(parts[0]) == Some(seconds / 60) && ParseInt(parts[1]) == Some(seconds % 60)
  {
    var minutes, leftover: nat := seconds / 60, seconds % 60;
    assert FormatSeconds(seconds) == Pad2(minutes) + ":" + Pad2(leftover);
    PaddedPairRoundTrip(minutes, leftover);
  }

  /** Whether a key event is a keydown or a keyup. */
  datatype KeyEventType = KeyDown | KeyUp

  /** The fields of a `KeyboardEvent` the viewer reads. */
  datatype KeyboardEvent = KeyboardEvent(
    eventType: KeyEventType,
    targetNodeName: string,
    key: string,
    code: string,
    altKey: bool,
    ctrlKey: bool,
    shiftKey: bool)

  /** `event.code.indexOf('Numpad') === 0`. */
  predicate IsNumpadKey(e: KeyboardEvent) {
    StartsWith(e.code, "Numpad")
  }

  /**
   * `Number(key)` lies in 0..9: the key is one decimal digit, or is made only
   * of white space (which `Number` reads as 0).
   */
  predicate NumberInDigitRange(key: string) {
    (|key| == 1 && IsDigit(key[0])) || (forall k :: 0 <= k < |key| ==> IsJsSpace(key[k]))
  }

  /** The key name the id uses: the space bar and the numpad digits go by `event.code`. */
  function EffectiveKey(e: KeyboardEvent): (k: string)
    ensures e.key == " " ==> k == e.code
    ensures e.key != " " && !IsNumpadKey(e) ==> k == e.key
  {
    if e.key == " " || (NumberInDigitRange(e.key) && IsNumpadKey(e)) then e.code else e.key
  }

  /** Shift is shown only for keys that have no shifted character of their own. */
  predicate ShowsShift(e: KeyboardEvent) {
    e.shiftKey && (|EffectiveKey(e)| > 1 || IsNumpadKey(e))
  }

  /** The modifier names are never appended as the key part. */
  predicate IsModifierName(k: string) {
    k == "Alt" || k == "Ctrl" || k == "Shift"
  }

  /** Position of a part in the canonical order Alt, Ctrl, Shift, key. */
  function PartRank(p: string): nat {
    if p == "Alt" then 0 else if p == "Ctrl" then 1 else if p == "Shift" then 2 else 3
  }

  /** One conditional append of the id's construction. */
  function AppendIf(parts: seq<string>, present: bool, x: string): seq<string> {
    if present then parts + [x] else parts
  }

  /** The parts of an id: the pressed modifiers in order, then the key unless it names a modifier. */
  function IdParts(alt: bool, ctrl: bool, shift: bool, key: string): seq<string> {
    AppendIf(AppendIf(AppendIf(AppendIf([], alt, "Alt"), ctrl, "Ctrl"), shift, "Shift"), !IsModifierName(key), key)
  }

  /**
   * The parts of a shortcut id, before they are joined with `+`. Alt, Ctrl
   * and Shift appear exactly when pressed (Shift only for keys without a
   * shifted character), in that order, and the key comes last unless it is
   * itself named Alt, Ctrl or Shift.
   */
  function KeyIdParts(e: KeyboardEvent): (r: seq<string>)
    ensures |r| <= 4
    ensures e.altKey <==> "Alt" in r
    ensures e.ctrlKey <==> "Ctrl" in r
    ensures ShowsShift(e) <==> "Shift" in r
    ensures !IsModifierName(EffectiveKey(e)) <==> (|r| > 0 && PartRank(r[|r| - 1]) == 3)
    ensures !IsModifierName(EffectiveKey(e)) ==> r[|r| - 1] == EffectiveKey(e)
    ensures forall i, j :: 0 <= i < j < |r| ==> PartRank(r[i]) < PartRank(r[j])
  {
    IdPartsMeaning(e.altKey, e.ctrlKey, ShowsShift(e), EffectiveKey(e));
    IdParts(e.altKey, e.ctrlKey, ShowsShift(e), EffectiveKey(e))
  }

  lemma IdPartsMeaning(alt: bool, ctrl: bool, shift: bool, key: string)
    ensures var r := IdParts(alt, ctrl, shift, key);
      && |r| <= 4
      && (alt <==> "Alt" in r)
      && (ctrl <==> "Ctrl" in r)
      && (shift <==> "Shift" in r)
      && (!IsModifierName(key) <==> (|r| > 0 && PartRank(r[|r| - 1]) == 3))
      && (!IsModifierName(key) ==> r[|r| - 1] == key)
      && Ranked(r)
  {
    assert "Alt" != "Ctrl" && "Alt" != "Shift" && "Ctrl" != "Shift" by {
      assert |"Alt"| == 3 && |"Ctrl"| == 4 && |"Shift"| == 5;
    }
    var p0: seq<string> := [];
    RankedAppend(p0, alt, "Alt");
    var p1 := AppendIf(p0, alt, "Alt");
    RankedAppend(p1, ctrl, "Ctrl");
    AppendKeeps(p1, ctrl, "Ctrl", "Alt");
    var p2 := AppendIf(p1, ctrl, "Ctrl");
    RankedAppend(p2, shift, "Shift");
    AppendKeeps(p2, shift, "Shift", "Alt");
    AppendKeeps(p2, shift, "Shift", "Ctrl");
    var p3 := AppendIf(p2, shift, "Shift");
    var m := !IsModifierName(key);
    if m {
      RankedAppend(p3, true, key);
      AppendKeeps(p3, m, key, "Alt");
      AppendKeeps(p3, m, key, "Ctrl");
      AppendKeeps(p3, m, key, "Shift");
    }
  }

  /** The parts rank strictly increasing. */
  predicate Ranked(parts: seq<string>) {
    forall i, j :: 0 <= i < j < |parts| ==> PartRank(parts[i]) < PartRank(parts[j])
  }

  /** Every part ranks below `n`. */
  predicate BelowRank(parts: seq<string>, n: nat) {
    forall i :: 0 <= i < |parts| ==> PartRank(parts[i]) < n
  }

  /** Appending a part of higher rank, or nothing, keeps the order and places the part last. */
  lemma RankedAppend(parts: seq<string>, present: bool, x: string)
    requires Ranked(parts) && BelowRank(parts, PartRank(x))
    ensures var r := AppendIf(parts, present, x);
            Ranked(r) && BelowRank(r, PartRank(x) + 1)
            && (x in r <==> present) && (present ==> r[|r| - 1] == x)
            && |r| == |parts| + (if present then 1 else 0)
  {
    if present {
      var r := parts + [x];
      assert forall i :: 0 <= i < |parts| ==> r[i] == parts[i];
    }
  }

  /** Appending `x` leaves the presence of any other part as it was. */
  lemma AppendKeeps(parts: seq<string>, present: bool, x: string, y: string)
    requires y != x
    ensures y in AppendIf(parts, present, x) <==> y in parts
  {
  }

  /** Appending one part to a joined id is joining one more part. */
  lemma {:induction false} JoinSnoc(p: seq<string>, x: string, sep: string)
    ensures Join(p + [x], sep) == if p == [] then x else Join(p, sep) + sep + x
  {
    if |p| >= 2 {
      assert (p + [x])[1..] == p[1..] + [x];
      JoinSnoc(p[1..], x, sep);
    } else if |p| == 1 {
      assert (p + [x])[1..] == [x];
    }
  }

  lemma {:induction false} JoinEmpty(p: seq<string>, sep: string)
    requires NoEmptyPart(p)
    ensures (Join(p, sep) == "") <==> (p == [])
  {
    if |p| >= 2 {
      JoinEmpty(p[1..], sep);
    }
  }

  /** The opening of `keyEventId`: the key name it uses and whether the key is on the numpad. */
  method KeyName(e: KeyboardEvent) returns (key: string, isNumpadKey: bool)
    ensures key == EffectiveKey(e) && isNumpadKey == IsNumpadKey(e)
  {
    key := e.key;
    isNumpadKey := StartsWith(e.code, "Numpad");
    var isNumpadNumber := NumberInDigitRange(e.key) && isNumpadKey;
    if key == " " || isNumpadNumber {
      key := e.code;
    }
  }

  /**
   * `keyEventId(event)`, building the id by successive appends as the source
   * does; the result is the `+`-joined list of parts.
   */
  method KeyEventId(e: KeyboardEvent) returns (id: string)
    ensures id == Join(KeyIdParts(e), "+")
  {
    var key, isNumpadKey := KeyName(e);
    ghost var parts: seq<string> := [];
    id := "";
    if e.altKey {
      AppendPart(parts, id, "Alt");
      id := id + "Alt";
    }
    parts := AppendIf(parts, e.altKey, "Alt");
    assert id == Join(parts, "+") && NoEmptyPart(parts);
    if e.ctrlKey {
      AppendPart(parts, id, "Ctrl");
      id := id + (if |id| > 0 then "+Ctrl" else "Ctrl");
    }
    parts := AppendIf(parts, e.ctrlKey, "Ctrl");
    assert id == Join(parts, "+") && NoEmptyPart(parts);
    if e.shiftKey && (|key| > 1 || isNumpadKey) {
      AppendPart(parts, id, "Shift");
      id := id + (if |id| > 0 then "+Shift" else "Shift");
    }
    parts := AppendIf(parts, ShowsShift(e), "Shift");
    assert id == Join(parts, "+") && NoEmptyPart(parts);
    if key != "Alt" && key != "Ctrl" && key != "Shift" {
      AppendPart(parts, id, key);
      id := id + (if |id| > 0 then "+" else "") + key;
    }
    parts := AppendIf(parts, !IsModifierName(key), key);
  }

  predicate NoEmptyPart(parts: seq<string>) {
    forall i :: 0 <= i < |parts| ==> parts[i] != ""
  }

  /** One `id += ...` step of the source: the id grows by one joined part. */
  lemma AppendPart(parts: seq<string>, id: string, x: string)
    requires id == Join(parts, "+") && NoEmptyPart(parts)
    ensures x != "" ==> NoEmptyPart(parts + [x])
    ensures id + (if |id| > 0 then "+" else "") + x == Join(parts + [x], "+")
    ensures id + (if |id| > 0 then "+" + x else x) == Join(parts + [x], "+")
  {
    JoinSnoc(parts, x, "+");
    JoinEmpty(parts, "+");
    if x != "" {
      assert forall i :: 0 <= i < |parts| ==> (parts + [x])[i] == parts[i];
    }
  }

  /**
   * The Control key reports itself as "Control", not "Ctrl", so pressing it
   * alone yields the id "Ctrl+Control": the name filter lets it through.
   */
  lemma ControlKeyAlone()
    ensures Join(KeyIdParts(KeyboardEvent(KeyDown, "BODY", "Control", "ControlLeft", false, true, false)), "+")
            == "Ctrl+Control"
  {
    var e := KeyboardEvent(KeyDown, "BODY", "Control", "ControlLeft", false, true, false);
    assert e.key != " " && !IsNumpadKey(e) by {
      assert |e.key| != |" "|;
      assert e.code[..6][0] != "Numpad"[0];
    }
    assert EffectiveKey(e) == "Control" && !ShowsShift(e);
    assert IdParts(false, true, false, "Control") == ["Ctrl", "Control"];
    assert ["Ctrl", "Control"][1..] == ["Control"];
  }
}
