/**
 * The text the two game timers display. Both build a clock string out of
 * JavaScript's `String(n)` on a non-negative integer; the classic timer pads
 * both fields with `padStart(2, '0')`, the rescue timer pads only the seconds.
 * ParseClock reads such a string back and is the partner of both formats.
 */
module Text {
  import opened Wrappers

  predicate IsDigit(c: char) { '0' <= c <= '9' }

  predicate AllDigits(s: string) { forall i :: 0 <= i < |s| ==> IsDigit(s[i]) }

  function DigitChar(d: nat): (c: char)
    requires d < 10
    ensures IsDigit(c) && DigitValue(c) == d
  {
    "0123456789"[d]
  }

  function DigitValue(c: char): nat
    requires IsDigit(c)
  {
    c as int - '0' as int
  }

  /** `String(n)` for a non-negative integer: its decimal digits, no leading zero. */
  function NatToString(n: nat): (r: string)
    ensures AllDigits(r)
    ensures |r| == 1 <==> n < 10
    ensures |r| == 2 <==> 10 <= n < 100
    ensures |r| > 1 ==> r[0] != '0'
  {
    if n < 10 then [DigitChar(n)] else NatToString(n / 10) + [DigitChar(n % 10)]
  }

  /** The value of a string of decimal digits (the empty string reads as 0). */
  function ParseNat(s: string): nat
    requires AllDigits(s)
  {
    if s == [] then 0 else ParseNat(s[..|s| - 1]) * 10 + DigitValue(s[|s| - 1])
  }

  lemma {:induction false} ParseNatToString(n: nat)
    ensures ParseNat(NatToString(n)) == n
  {
    var s := NatToString(n);
    if n >= 10 {
      var p := NatToString(n / 10);
      assert s[..|s| - 1] == p;
      ParseNatToString(n / 10);
    }
  }

  /** Leading zeros do not change the value of a digit string. */
  lemma {:induction false} ParseNatLeadingZero(s: string)
    requires AllDigits(s)
    ensures AllDigits("0" + s) && ParseNat("0" + s) == ParseNat(s)
  {
    var z := "0" + s;
    assert AllDigits(z) by {
      forall i | 0 <= i < |z| ensures IsDigit(z[i]) {
        if i > 0 { assert z[i] == s[i - 1]; }
      }
    }
    if s != [] {
      var t := s[..|s| - 1];
      assert z[..|z| - 1] == "0" + t;
      ParseNatLeadingZero(t);
    }
  }

  /** `s.padStart(2, '0')`: a string shorter than two characters gets zeros in front. */
  function PadStart2(s: string): (r: string)
    ensures |r| == if |s| < 2 then 2 else |s|
    ensures r[|r| - |s|..] == s
    ensures forall i :: 0 <= i < |r| - |s| ==> r[i] == '0'
  {
    if |s| < 2 then seq(2 - |s|, _ => '0') + s else s
  }

  /** Padding a digit string with zeros keeps it a digit string with the same value. */
  lemma PadStart2Value(s: string)
    requires AllDigits(s)
    ensures AllDigits(PadStart2(s)) && ParseNat(PadStart2(s)) == ParseNat(s)
  {
    if |s| == 1 {
      assert PadStart2(s) == "0" + s;
      ParseNatLeadingZero(s);
    } else if |s| == 0 {
      assert PadStart2(s) == "0" + "0";
      ParseNatLeadingZero("0");
    }
  }

  /**
   * Reads "M:SS" back: any number of minute digits, a colon, exactly two
   * second digits below 60. It is the partner of both clock formats below:
   * the minutes field holds the whole minutes and the seconds field the rest.
   */
  function ParseClock(t: string): (r: Option<nat>)
    ensures r.Some? ==>
      && |t| >= 4 && t[|t| - 3] == ':' && AllDigits(t[..|t| - 3]) && AllDigits(t[|t| - 2..])
      && ParseNat(t[..|t| - 3]) == r.value / 60 && ParseNat(t[|t| - 2..]) == r.value % 60
  {
    if |t| >= 4 && t[|t| - 3] == ':' && AllDigits(t[..|t| - 3]) && AllDigits(t[|t| - 2..]) && ParseNat(t[|t| - 2..]) < 60
    then Some(ParseNat(t[..|t| - 3]) * 60 + ParseNat(t[|t| - 2..]))
    else None
  }

  /** The classic battle timer: minutes and seconds, each zero-padded to two digits. */
  function ElapsedClock(elapsed: nat): (r: string)
    ensures elapsed < 6000 ==> |r| == 5
  {
    PadStart2(NatToString(elapsed / 60)) + ":" + PadStart2(NatToString(elapsed % 60))
  }

  /** The rescue countdown: unpadded minutes, a colon, seconds with a '0' in front when below ten. */
  function CountdownClock(timeLeft: nat): (r: string)
    ensures timeLeft < 600 ==> |r| == 4
  {
    NatToString(timeLeft / 60) + ":" + (if timeLeft % 60 < 10 then "0" else "") + NatToString(timeLeft % 60)
  }

  /** A minutes field, a colon and a two-digit seconds field read back as their total. */
  lemma {:induction false} ParseClockParts(m: string, sec: string)
    requires AllDigits(m) && |m| >= 1 && AllDigits(sec) && |sec| == 2 && ParseNat(sec) < 60
    ensures ParseClock(m + ":" + sec) == Some(ParseNat(m) * 60 + ParseNat(sec))
  {
    var t := m + ":" + sec;
    assert t[..|t| - 3] == m;
    assert t[|t| - 2..] == sec;
  }

  lemma {:induction false} ElapsedClockRoundTrip(elapsed: nat)
    ensures ParseClock(ElapsedClock(elapsed)) == Some(elapsed)
  {
    var m, s := NatToString(elapsed / 60), NatToString(elapsed % 60);
    PadStart2Value(m);
    PadStart2Value(s);
    ParseNatToString(elapsed / 60);
    ParseNatToString(elapsed % 60);
    ParseClockParts(PadStart2(m), PadStart2(s));
  }

  lemma {:induction false} CountdownClockRoundTrip(timeLeft: nat)
    ensures ParseClock(CountdownClock(timeLeft)) == Some(timeLeft)
  {
    var m, s := NatToString(timeLeft / 60), NatToString(timeLeft % 60);
    var sec := (if timeLeft % 60 < 10 then "0" else "") + s;
    assert CountdownClock(timeLeft) == m + ":" + sec;
    if timeLeft % 60 < 10 {
      ParseNatLeadingZero(s);
    } else {
      assert sec == s;
    }
    ParseNatToString(timeLeft / 60);
    ParseNatToString(timeLeft % 60);
    ParseClockParts(m, sec);
  }
}
