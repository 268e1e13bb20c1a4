/**
 * The text the interface of js/uiManager.js shows for a status snapshot:
 * the move and pair counters, the `mm:ss` clock and the win message.
 * Numbers are printed as JavaScript's `String` prints integers, and
 * `padStart(2, '0')` pads on the left without ever cutting.
 */
module Format {
  import opened Wrappers
  import opened Rules

  /** A decimal digit. */
  predicate IsDigit(c: char)
  {
    '0' <= c <= '9'
  }

  predicate IsDigits(s: string)
  {
    forall i :: 0 <= i < |s| ==> IsDigit(s[i])
  }

  function DigitChar(d: nat): (c: char)
    requires d < 10
    ensures IsDigit(c) && c as int - '0' as int == d
  {
    ('0' as int + d) as char
  }

  /** The value of a string of decimal digits; the empty string reads as 0. */
  function DigitsValue(s: string): nat
    requires IsDigits(s)
  {
    if s == [] then 0
    else DigitsValue(s[..|s| - 1]) * 10 + (s[|s| - 1] as int - '0' as int)
  }

  /** `String(n)` for a non-negative integer: its decimal digits, without leading zeros. */
  function Digits(n: nat): (s: string)
    ensures 1 <= |s| && IsDigits(s)
    ensures s[0] == '0' ==> n == 0
    ensures |s| == 1 <==> n < 10
    decreases n
  {
    if n < 10 then [DigitChar(n)] else Digits(n / 10) + [DigitChar(n % 10)]
  }

  function Abs(i: int): nat
  {
    if i < 0 then -i else i
  }

  /** A printed number without its minus sign, if it has one. */
  function Unsigned(s: string): string
  {
    if |s| >= 1 && s[0] == '-' then s[1..] else s
  }

  /**
   * `String(i)` for any integer: it starts with a minus sign exactly when
   * `i` is negative, and what follows the sign are digits that read back
   * as the magnitude of `i`.
   */
  function IntText(i: int): (s: string)
    ensures |s| >= 1 && (s[0] == '-' <==> i < 0)
    ensures |Unsigned(s)| >= 1 && IsDigits(Unsigned(s)) && DigitsValue(Unsigned(s)) == Abs(i)
  {
    if i < 0 then
      var d := Digits(-i);
      DigitsRoundTrip(-i);
      assert ("-" + d)[1..] == d;
      "-" + d
    else
      var d := Digits(i);
      DigitsRoundTrip(i);
      assert IsDigit(d[0]);
      d
  }

  /** `s.padStart(width, fill)`: fill on the left up to `width`; a longer `s` is unchanged. */
  function PadStart(s: string, width: nat, fill: char): (r: string)
    ensures |r| == if |s| >= width then |s| else width
    ensures r[|r| - |s|..] == s
    ensures forall i :: 0 <= i < |r| - |s| ==> r[i] == fill
  {
    if |s| >= width then s else seq(width - |s|, _ => fill) + s
  }

  /** The minutes field: `String(Math.floor(seconds / 60)).padStart(2, '0')`. */
  function MinutesText(seconds: nat): string
  {
    PadStart(Digits(seconds / 60), 2, '0')
  }

  /** The seconds field: `String(seconds % 60).padStart(2, '0')`. */
  function SecondsText(seconds: nat): string
  {
    PadStart(Digits(seconds % 60), 2, '0')
  }

  /** The `${mm}:${ss}` clock. */
  function ClockText(seconds: nat): string
  {
    MinutesText(seconds) + ":" + SecondsText(seconds)
  }

  /**
   * `String(totalCards / 2)`: the division is on reals, so an odd count
   * prints a half. The text is negative exactly when the count is, and an
   * odd count ends in `.5`; `HalfTextRoundTrip` reads it back.
   */
  function HalfText(totalCards: int): (s: string)
    ensures |s| >= 1 && (s[0] == '-' <==> totalCards < 0)
    ensures totalCards % 2 != 0 ==> |s| >= 3 && s[|s| - 2..] == ".5"
  {
    if totalCards % 2 == 0 then IntText(totalCards / 2)
    else if totalCards > 0 then Digits((totalCards - 1) / 2) + ".5"
    else "-" + Digits((-totalCards - 1) / 2) + ".5"
  }

  /** The `moves` label of `updateStats`. */
  function MovesLabel(st: Status): string
  {
    "Moves: " + Digits(st.moves)
  }

  /** The `matched` label of `updateStats`; `totalPairs` is `totalCards / 2`. */
  function MatchedLabel(st: Status): string
  {
    "Matched: " + Digits(st.matchedPairs) + "/" + HalfText(st.totalCards)
  }

  /** The `timer` label of `updateStats`. */
  function TimerLabel(st: Status): string
  {
    "Time: " + ClockText(st.seconds)
  }

  /**
   * The separator of the win message. The source file holds the UTF-8 bytes
   * of an em dash read back as Windows-1252, so the text has these three
   * characters where an em dash was meant.
   */
  const WinSeparator: string := " \U{E2}\U{20AC}\U{201D} "

  /** The text `showWin` puts in the final stats. */
  function WinText(st: Status): string
  {
    "Moves: " + Digits(st.moves) + WinSeparator + "Time: "
      + MinutesText(st.seconds) + ":" + SecondsText(st.seconds)
  }

  // ---------------------------------------------------------------------
  // Reading the text back

  /** The first position of `c` in `s`, if any. */
  function Find(s: string, c: char): (r: Option<nat>)
    ensures r.None? ==> forall k :: 0 <= k < |s| ==> s[k] != c
    ensures r.Some? ==> r.value < |s| && s[r.value] == c
    ensures r.Some? ==> forall k :: 0 <= k < r.value ==> s[k] != c
  {
    if s == [] then None
    else if s[0] == c then Some(0)
    else match Find(s[1..], c)
      case None => None
      case Some(k) => Some(k + 1)
  }

  /**
   * Reads a number as `String` prints a whole or a half: an optional minus
   * sign, at least one digit and an optional `.5`. The result is twice the
   * number, so that it is an integer.
   */
  function ReadHalf(r: string): Option<int>
  {
    var u := Unsigned(r);
    var half := |u| >= 2 && u[|u| - 2..] == ".5";
    var d := if half then u[..|u| - 2] else u;
    if |d| >= 1 && IsDigits(d) then
      var w := 2 * DigitsValue(d) + (if half then 1 else 0);
      Some(if |r| >= 1 && r[0] == '-' then -w else w)
    else None
  }

  /** The two fields of a clock: any digits, then exactly two digits below 60. */
  function FieldsValue(mm: string, ss: string): (r: Option<nat>)
    ensures r.Some? <==> |mm| >= 1 && IsDigits(mm) && |ss| == 2 && IsDigits(ss) && DigitsValue(ss) < 60
  {
    if |mm| >= 1 && IsDigits(mm) && |ss| == 2 && IsDigits(ss) && DigitsValue(ss) < 60
    then Some(DigitsValue(mm) * 60 + DigitsValue(ss))
    else None
  }

  /**
   * Reads an `mm:ss` clock: digits, a colon, exactly two digits below 60.
   * Anything else is rejected.
   */
  function ParseClock(t: string): (r: Option<nat>)
    ensures r.Some? ==> exists i :: 0 <= i < |t| && t[i] == ':'
  {
    match Find(t, ':')
    case None => None
    case Some(i) => FieldsValue(t[..i], t[i + 1..])
  }

  // ---------------------------------------------------------------------
  // Properties

  /** The digits of `n` read back as `n`. */
  lemma {:induction false} DigitsRoundTrip(n: nat)
    ensures DigitsValue(Digits(n)) == n
    decreases n
  {
    var s := Digits(n);
    if n < 10 {
      assert s[..0] == [];
    } else {
      DigitsRoundTrip(n / 10);
      assert s[..|s| - 1] == Digits(n / 10);
    }
  }

  /** From 100 on a number takes at least three digits. */
  lemma DigitsAtLeastThree(n: nat)
    requires n >= 100
    ensures |Digits(n)| >= 3
  {
    assert Digits(n) == Digits(n / 10) + [DigitChar(n % 10)];
    assert |Digits(n / 10)| >= 2;
  }

  predicate AllZeros(z: string)
  {
    forall i :: 0 <= i < |z| ==> z[i] == '0'
  }

  lemma {:induction false} ZerosValue(z: string)
    requires AllZeros(z)
    ensures IsDigits(z) && DigitsValue(z) == 0
  {
    if z != [] {
      ZerosValue(z[..|z| - 1]);
    }
  }

  /** Leading zeros do not change the value. */
  lemma {:induction false} LeadingZeros(z: string, s: string)
    requires AllZeros(z) && IsDigits(s)
    ensures IsDigits(z + s) && DigitsValue(z + s) == DigitsValue(s)
  {
    ZerosValue(z);
    if s == [] {
      assert z + s == z;
    } else {
      LeadingZeros(z, s[..|s| - 1]);
      assert (z + s)[..|z + s| - 1] == z + s[..|s| - 1];
    }
  }

  /** A zero-padded number keeps its value and its digits. */
  lemma PaddedValue(n: nat)
    ensures var p := PadStart(Digits(n), 2, '0');
      IsDigits(p) && DigitsValue(p) == n && |p| >= 2
  {
    var s := Digits(n);
    var p := PadStart(s, 2, '0');
    DigitsRoundTrip(n);
    if |s| < 2 {
      var z := p[..|p| - |s|];
      assert p == z + s;
      LeadingZeros(z, s);
    }
  }

  /** The seconds field is always two digits and reads back as `seconds % 60`, below 60. */
  lemma SecondsFieldTwoDigits(seconds: nat)
    ensures |SecondsText(seconds)| == 2 && IsDigits(SecondsText(seconds))
    ensures DigitsValue(SecondsText(seconds)) == seconds % 60 < 60
  {
    PaddedValue(seconds % 60);
  }

  /**
   * The minutes field has at least two digits, reads back as the whole
   * minutes, and is never cut: from 100 minutes on it grows to three digits.
   */
  lemma MinutesFieldNotTruncated(seconds: nat)
    ensures |MinutesText(seconds)| >= 2 && IsDigits(MinutesText(seconds))
    ensures DigitsValue(MinutesText(seconds)) == seconds / 60
    ensures seconds >= 6000 ==> MinutesText(seconds) == Digits(seconds / 60) && |MinutesText(seconds)| >= 3
  {
    PaddedValue(seconds / 60);
    if seconds >= 6000 {
      DigitsAtLeastThree(seconds / 60);
    }
  }

  /** `find` skips a prefix that does not hold the character. */
  lemma {:induction false} FindPast(p: string, c: char, rest: string)
    requires forall k :: 0 <= k < |p| ==> p[k] != c
    ensures Find(p + [c] + rest, c) == Some(|p|)
  {
    if p != [] {
      assert (p + [c] + rest)[1..] == p[1..] + [c] + rest;
      FindPast(p[1..], c, rest);
    }
  }

  /** Digits hold no colon, so `find` stops at the separator. */
  lemma FindColon(mm: string, ss: string)
    requires IsDigits(mm)
    ensures Find(mm + ":" + ss, ':') == Some(|mm|)
  {
    forall i | 0 <= i < |mm| ensures mm[i] != ':' {
      assert IsDigit(mm[i]);
    }
    FindPast(mm, ':', ss);
  }

  lemma SplitJoined(mm: string, ss: string)
    ensures (mm + ":" + ss)[..|mm|] == mm && (mm + ":" + ss)[|mm| + 1..] == ss
  {
  }

  /** Any digits, a colon and two digits below 60 parse as minutes times 60 plus seconds. */
  lemma ParseJoined(mm: string, ss: string)
    requires |mm| >= 1 && IsDigits(mm) && |ss| == 2 && IsDigits(ss) && DigitsValue(ss) < 60
    ensures ParseClock(mm + ":" + ss) == Some(DigitsValue(mm) * 60 + DigitsValue(ss))
  {
    var t := mm + ":" + ss;
    FindColon(mm, ss);
    SplitJoined(mm, ss);
    assert ParseClock(t) == FieldsValue(t[..|mm|], t[|mm| + 1..]);
    assert ParseClock(t) == FieldsValue(mm, ss);
    assert FieldsValue(mm, ss) == Some(DigitsValue(mm) * 60 + DigitsValue(ss));
  }

  /** Fields that read back as the minutes and the seconds parse back as the time. */
  lemma ParseFields(mm: string, ss: string, seconds: nat)
    requires |mm| >= 1 && IsDigits(mm) && DigitsValue(mm) == seconds / 60
    requires |ss| == 2 && IsDigits(ss) && DigitsValue(ss) == seconds % 60
    ensures ParseClock(mm + ":" + ss) == Some(seconds)
  {
    ParseJoined(mm, ss);
  }

  /** Reading the clock back gives the seconds it shows: `mm * 60 + ss == seconds`. */
  lemma ClockRoundTrip(seconds: nat)
    ensures ParseClock(ClockText(seconds)) == Some(seconds)
  {
    MinutesFieldNotTruncated(seconds);
    SecondsFieldTwoDigits(seconds);
    ParseFields(MinutesText(seconds), SecondsText(seconds), seconds);
  }

  /** Different times never show the same clock. */
  lemma ClockTextInjective(a: nat, b: nat)
    requires ClockText(a) == ClockText(b)
    ensures a == b
  {
    ClockRoundTrip(a);
    ClockRoundTrip(b);
  }

  /** `showWin` prints the same counter and clock as `updateStats`, joined by the separator. */
  lemma WinTextAgrees(st: Status)
    ensures WinText(st) == MovesLabel(st) + WinSeparator + TimerLabel(st)
  {
    JoinRegroup("Moves: " + Digits(st.moves), WinSeparator, "Time: ",
                MinutesText(st.seconds), ":", SecondsText(st.seconds));
  }

  lemma JoinRegroup(a: string, b: string, c: string, d: string, e: string, f: string)
    ensures a + b + c + d + e + f == a + b + (c + (d + e + f))
  {
  }

  /** Digits never end in `.5`. */
  lemma DigitsNotHalf(d: string)
    requires IsDigits(d)
    ensures !(|d| >= 2 && d[|d| - 2..] == ".5")
  {
    if |d| >= 2 {
      assert IsDigit(d[|d| - 2]);
      assert d[|d| - 2..][0] != ".5"[0];
    }
  }

  /** Digits followed by `.5` read back as twice their value plus one. */
  lemma ReadHalfOdd(r: string, m: nat)
    requires Unsigned(r) == Digits(m) + ".5"
    ensures ReadHalf(r) == Some(if |r| >= 1 && r[0] == '-' then -(2 * m + 1) else 2 * m + 1)
  {
    var u := Unsigned(r);
    assert u[..|u| - 2] == Digits(m);
    DigitsRoundTrip(m);
  }

  /** A printed integer reads back as twice itself. */
  lemma ReadHalfWhole(k: int)
    ensures ReadHalf(IntText(k)) == Some(2 * k)
  {
    var u := Unsigned(IntText(k));
    DigitsNotHalf(u);
    assert ReadHalf(IntText(k)) == Some(if k < 0 then -(2 * Abs(k)) else 2 * Abs(k));
  }

  /** Reading the pair total back gives the card count: `2 * (totalCards / 2) == totalCards`. */
  lemma HalfTextRoundTrip(totalCards: int)
    ensures ReadHalf(HalfText(totalCards)) == Some(totalCards)
  {
    if totalCards % 2 == 0 {
      var k := totalCards / 2;
      assert 2 * k == totalCards;
      assert HalfText(totalCards) == IntText(k);
      ReadHalfWhole(k);
    } else if totalCards > 0 {
      ReadHalfPositive((totalCards - 1) / 2);
    } else {
      ReadHalfNegative((-totalCards - 1) / 2);
    }
  }

  lemma ReadHalfPositive(m: nat)
    ensures ReadHalf(Digits(m) + ".5") == Some(2 * m + 1)
  {
    var s := Digits(m) + ".5";
    assert IsDigit(Digits(m)[0]);
    assert Unsigned(s) == s;
    ReadHalfOdd(s, m);
  }

  lemma ReadHalfNegative(m: nat)
    ensures ReadHalf("-" + Digits(m) + ".5") == Some(-(2 * m + 1))
  {
    var s := "-" + Digits(m) + ".5";
    assert Unsigned(s) == s[1..] == Digits(m) + ".5";
    ReadHalfOdd(s, m);
  }

  /**
   * The `matched` label shows the pairs found, a slash, and a total that
   * reads back as half the card count, for every count; an even count
   * shows the total as an integer.
   */
  lemma MatchedLabelTotal(st: Status)
    ensures var p := "Matched: " + Digits(st.matchedPairs) + "/";
      |p| <= |MatchedLabel(st)| && MatchedLabel(st)[..|p|] == p
      && ReadHalf(MatchedLabel(st)[|p|..]) == Some(st.totalCards)
    ensures st.totalCards % 2 == 0 ==>
      MatchedLabel(st) == "Matched: " + Digits(st.matchedPairs) + "/" + IntText(st.totalCards / 2)
  {
    var p := "Matched: " + Digits(st.matchedPairs) + "/";
    assert MatchedLabel(st)[|p|..] == HalfText(st.totalCards);
    HalfTextRoundTrip(st.totalCards);
  }
}
