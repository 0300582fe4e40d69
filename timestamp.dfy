/**
 * The `M:SS` label a transcript handler derives from the start offset (in
 * seconds) of an event's first word: the whole minutes, unpadded, a colon,
 * then the remaining whole seconds with a `0` in front when below ten.
 *
 * The offset is a `real`. JavaScript's `%` truncates toward zero, so it is
 * written out here (an offset is never negative in practice, but the function
 * is defined everywhere, as the handler is).
 */
module Timestamp {
  import opened Wrappers
  import opened Decimal

  /** Rounding toward zero. */
  function Trunc(x: real): int {
    if x >= 0.0 then x.Floor else -((-x).Floor)
  }

  /** JavaScript's `x % d`: the remainder whose sign follows the dividend. */
  function JsRemainder(x: real, d: real): real
    requires d != 0.0
  {
    x - d * (Trunc(x / d) as real)
  }

  /** The offset divided by 60, rounded down. */
  function Minutes(s: real): int {
    (s / 60.0).Floor
  }

  /** The remainder of the offset by 60, rounded down. */
  function Seconds(s: real): int {
    JsRemainder(s, 60.0).Floor
  }

  /** The minutes as written, a colon, a zero when the seconds are a single digit, then the seconds. */
  function Label(minutes: int, seconds: int): string {
    IntToString(minutes) + ":" + (if seconds < 10 then "0" else "") + IntToString(seconds)
  }

  /**
   * The label of offset `s`. For a non-negative offset it has the form
   * digits, colon, two digits, and reads back as the whole minutes and the
   * remaining whole seconds.
   */
  function FormatTimestamp(s: real): (stamp: string)
    ensures s >= 0.0 ==> ParseTimestamp(stamp) == Some((s.Floor / 60, s.Floor % 60))
  {
    var minutes := Minutes(s);
    var seconds := Seconds(s);
    if s >= 0.0 then
      Components(s);
      ParseLabel(minutes, seconds);
      Label(minutes, seconds)
    else
      Label(minutes, seconds)
  }

  /** For a non-negative offset the two parts are the whole seconds divided by 60 and their remainder. */
  lemma Components(s: real)
    requires s >= 0.0
    ensures Minutes(s) == s.Floor / 60
    ensures Seconds(s) == s.Floor % 60
    ensures 0 <= Seconds(s) < 60
  {
  }

  /** Position of the first `c` in `t`, if any. */
  function IndexOf(t: string, c: char): (r: Option<nat>)
    ensures r.None? <==> c !in t
    ensures r.Some? ==> r.value < |t| && t[r.value] == c && c !in t[..r.value]
    decreases |t|
  {
    if t == [] then None
    else if t[0] == c then Some(0)
    else
      match IndexOf(t[1..], c)
      case None => None
      case Some(i) => assert t[1..][..i] == t[1..i + 1]; Some(i + 1)
  }

  /**
   * Reads a label of the form digits without a leading zero (a lone `0`
   * allowed), a colon and exactly two digits below 60 back into its minutes
   * and seconds; None for anything else.
   */
  function ParseTimestamp(t: string): Option<(nat, nat)> {
    match IndexOf(t, ':')
    case None => None
    case Some(i) =>
      var secondsPart := t[i + 1..];
      match (ParseNat(t[..i]), ParseNat(secondsPart))
      case (Some(m), Some(sec)) =>
        if |secondsPart| == 2 && sec < 60 && (t[0] != '0' || i == 1) then Some((m, sec)) else None
      case _ => None
  }

  /** The seconds part a non-negative offset gets: two digits. */
  lemma SecondsPart(sec: int)
    requires 0 <= sec < 60
    ensures var part := (if sec < 10 then "0" else "") + IntToString(sec);
      |part| == 2 && ParseNat(part) == Some(sec)
  {
    ParseNatToString(sec);
    var digits := NatToString(sec);
    assert IntToString(sec) == digits;
    if sec < 10 {
      ParseLeadingZero(digits);
      assert ParseNat(digits) == ParseDigits(digits);
      assert ParseNat("0" + digits) == ParseDigits("0" + digits);
    } else {
      assert "" + digits == digits;
    }
  }

  /** A label with non-negative minutes and seconds below 60 reads back as those two numbers. */
  lemma ParseLabel(minutes: int, seconds: int)
    requires minutes >= 0 && 0 <= seconds < 60
    ensures ParseTimestamp(Label(minutes, seconds)) == Some((minutes, seconds))
  {
    var minutesPart := IntToString(minutes);
    var secondsPart := (if seconds < 10 then "0" else "") + IntToString(seconds);
    var t := Label(minutes, seconds);
    assert t == minutesPart + ":" + secondsPart;
    ParseNatToString(minutes);
    SecondsPart(seconds);
    assert ':' !in minutesPart;
    assert t[0] == minutesPart[0];
    assert t[|minutesPart|] == ':';
    assert t[..|minutesPart|] == minutesPart;
    assert IndexOf(t, ':') == Some(|minutesPart|);
    assert t[|minutesPart| + 1..] == secondsPart;
  }

  /**
   * The labels `ParseTimestamp` accepts are exactly the rendered ones: a
   * string that reads as (m, sec) is the label of (m, sec), character for
   * character, so no padded or otherwise different spelling gets through.
   */
  lemma ParseTimestampCanonical(t: string, m: nat, sec: nat)
    requires ParseTimestamp(t) == Some((m, sec))
    ensures t == Label(m, sec)
  {
    var i := IndexOf(t, ':').value;
    var minutesPart, secondsPart := t[..i], t[i + 1..];
    assert ParseNat(minutesPart) == Some(m);
    assert minutesPart[0] == t[0];
    ParseNatCanonical(minutesPart, m);
    assert IntToString(m) == minutesPart;
    TwoDigitsCanonical(secondsPart, sec);
    assert t == minutesPart + ":" + secondsPart;
  }

  /** Two digits reading as a number below 60 are that number's seconds part. */
  lemma TwoDigitsCanonical(part: string, sec: nat)
    requires |part| == 2 && ParseNat(part) == Some(sec)
    ensures part == (if sec < 10 then "0" else "") + IntToString(sec)
  {
    assert part[..1][..0] == [];
    assert ParseDigits(part[..1]) == Some(DigitValue(part[0]));
    assert sec == 10 * DigitValue(part[0]) + DigitValue(part[1]);
    if part[0] == '0' {
      assert DigitValue(part[0]) == 0;
      assert IntToString(sec) == [DigitChar(sec)];
      assert part == "0" + [part[1]];
    } else {
      ParseNatCanonical(part, sec);
    }
  }

  /**
   * Two non-negative offsets share a label exactly when they fall within the
   * same whole second.
   */
  lemma SameLabelIff(s1: real, s2: real)
    requires s1 >= 0.0 && s2 >= 0.0
    ensures FormatTimestamp(s1) == FormatTimestamp(s2) <==> s1.Floor == s2.Floor
  {
    Components(s1);
    Components(s2);
    var f1, f2 := s1.Floor, s2.Floor;
    assert f1 == 60 * (f1 / 60) + f1 % 60;
    assert f2 == 60 * (f2 / 60) + f2 % 60;
  }

  /** 65 seconds in is `1:05`. */
  lemma SixtyFiveSeconds()
    ensures FormatTimestamp(65.0) == "1:05"
  {
  }
}
