/** The countdown text a tick writes into remainingTime (src/App.tsx, the
    `minutes:ss` template of the interval body). */
module Countdown {
  import opened Clock
  import opened Decimal

  datatype Option<T> = None | Some(value: T)

  /** `Math.floor(diff / (1000 * 60))`: whole minutes, rounded down. */
  function Minutes(diff: int): (m: int)
    ensures m * MS_PER_MINUTE <= diff < (m + 1) * MS_PER_MINUTE
  {
    FloorDiv(diff, MS_PER_MINUTE)
  }

  /** `Math.floor((diff % (1000 * 60)) / 1000)`, with JavaScript's truncating
      `%`: the seconds past the whole minutes, negative once diff is. */
  function Seconds(diff: int): (s: int)
    ensures diff >= 0 ==> 0 <= s < 60
    ensures diff < 0 ==> -60 <= s <= 0
  {
    FloorDiv(TruncRem(diff, MS_PER_MINUTE), MS_PER_SECOND)
  }

  /** `${minutes}:${seconds.toString().padStart(2, '0')}`: at least one
      minute character, the colon and two second characters. */
  function CountdownText(diff: int): (text: string)
    ensures |text| >= 4
  {
    IntToString(Minutes(diff)) + ":" + PadStart(IntToString(Seconds(diff)), 2, '0')
  }

  /** Position of the first c in s, or |s| when there is none. */
  function IndexOf(s: string, c: char): (k: nat)
    ensures k <= |s|
    ensures k < |s| ==> s[k] == c
    ensures forall i :: 0 <= i < k ==> s[i] != c
  {
    if s == [] then 0
    else if s[0] == c then 0
    else 1 + IndexOf(s[1..], c)
  }

  /** Reads an `m:ss` countdown back as a whole number of seconds. */
  function ParseCountdown(s: string): (v: Option<int>) {
    var k := IndexOf(s, ':');
    if k == |s| then None
    else
      var mm, ss := s[..k], s[k + 1..];
      if |mm| >= 1 && AllDigits(mm) && |ss| == 2 && AllDigits(ss) && ParseNat(ss) < 60
      then Some(ParseNat(mm) * 60 + ParseNat(ss))
      else None
  }

  /** For a non-negative difference the seconds field is 0..59 and minutes and
      seconds together are the whole seconds remaining; for a negative one the
      minutes are negative and the seconds lie in -60..0. */
  lemma CountdownFields(diff: int)
    ensures diff >= 0 ==>
      && Minutes(diff) >= 0
      && 0 <= Seconds(diff) < 60
      && Minutes(diff) * 60 + Seconds(diff) == diff / MS_PER_SECOND
    ensures diff < 0 ==> Minutes(diff) < 0 && -60 <= Seconds(diff) <= 0
  {
    if diff >= 0 {
      var m, r := diff / MS_PER_MINUTE, diff % MS_PER_MINUTE;
      var s := r / MS_PER_SECOND;
      assert diff == (m * 60 + s) * MS_PER_SECOND + r % MS_PER_SECOND;
      SecondsQuotient(diff, m * 60 + s, r % MS_PER_SECOND);
    }
  }

  lemma SecondsQuotient(a: int, q: int, r: int)
    requires a == q * MS_PER_SECOND + r && 0 <= r < MS_PER_SECOND
    ensures a / MS_PER_SECOND == q
  {
  }

  /** Two-digit seconds: padStart(2, '0') of the decimal text of s in 0..59. */
  lemma PaddedSeconds(s: int)
    requires 0 <= s < 60
    ensures PadStart(IntToString(s), 2, '0') == [DigitChar(s / 10), DigitChar(s % 10)]
  {
    if s < 10 {
      var d := [DigitChar(s)];
      assert IntToString(s) == d;
      assert PadStart(d, 2, '0') == PadStart(['0'] + d, 2, '0') == ['0'] + d;
      assert DigitChar(s / 10) == '0' && s % 10 == s;
    } else {
      assert NatToString(s / 10) == [DigitChar(s / 10)];
      assert IntToString(s) == [DigitChar(s / 10)] + [DigitChar(s % 10)];
    }
  }

  /** The canonical `m:ss` text: m in decimal, a colon, and s (0..59) as two digits. */
  function MinutesSecondsText(m: nat, s: int): (text: string)
    requires 0 <= s < 60
  {
    NatToString(m) + ":" + [DigitChar(s / 10), DigitChar(s % 10)]
  }

  /** For a non-negative difference the text is the minutes in decimal, a
      colon and exactly two digits of seconds. */
  lemma CountdownShape(diff: int)
    requires diff >= 0
    ensures var s := Seconds(diff);
      && 0 <= s < 60
      && CountdownText(diff) == MinutesSecondsText(Minutes(diff), s)
  {
    CountdownFields(diff);
    PaddedSeconds(Seconds(diff));
    assert IntToString(Minutes(diff)) == NatToString(Minutes(diff));
  }

  /** The text starts with a digit while the respawn instant is ahead (or
      now) and with a minus sign once it has passed. */
  lemma CountdownSign(diff: int)
    ensures diff >= 0 <==> IsDigit(CountdownText(diff)[0])
    ensures diff < 0 ==> CountdownText(diff)[0] == '-'
  {
    var minutes := IntToString(Minutes(diff));
    assert CountdownText(diff)[0] == minutes[0];
  }

  /** Reading a non-negative countdown back yields floor(diff / 1000), the
      whole seconds remaining. */
  lemma {:induction false} CountdownRoundTrip(diff: int)
    requires diff >= 0
    ensures ParseCountdown(CountdownText(diff)) == Some(diff / MS_PER_SECOND)
  {
    var m, s := Minutes(diff), Seconds(diff);
    var seconds := diff / MS_PER_SECOND;
    assert m >= 0 && 0 <= s < 60 && m * 60 + s == seconds by {
      CountdownFields(diff);
    }
    calc {
      ParseCountdown(CountdownText(diff));
    ==  { CountdownShape(diff); }
      ParseCountdown(MinutesSecondsText(m, s));
    ==  { ParseMinutesSeconds(m, s); }
      Some(m * 60 + s);
    ==
      Some(seconds);
    }
  }

  /** Parsing a well-formed `m:ss` gives m * 60 + ss. */
  lemma ParseMinutesSeconds(m: nat, s: int)
    requires 0 <= s < 60
    ensures ParseCountdown(MinutesSecondsText(m, s)) == Some(m * 60 + s)
  {
    var text := MinutesSecondsText(m, s);
    var a, b := NatToString(m), [DigitChar(s / 10), DigitChar(s % 10)];
    assert text[|a|] == ':';
    assert forall i :: 0 <= i < |a| ==> text[i] == a[i] && IsDigit(text[i]);
    var k := IndexOf(text, ':');
    assert k == |a|;
    assert text[..k] == a && text[k + 1..] == b;
    ParseNatToString(m);
    assert ParseNat(b) == s by {
      assert b[..1] == [DigitChar(s / 10)];
      assert ParseNat(b[..1]) == s / 10 by {
        assert b[..1][..0] == [];
      }
    }
  }

  /** Half a second past the respawn instant the text reads "-1:-1". */
  lemma LateHalfSecond()
    ensures CountdownText(-500) == "-1:-1"
  {
    calc {
      CountdownText(-500);
    ==  { assert Minutes(-500) == -1 && Seconds(-500) == -1; }
      IntToString(-1) + ":" + PadStart(IntToString(-1), 2, '0');
    ==  { MinusOne(); }
      "-1" + ":" + PadStart("-1", 2, '0');
    ==
      "-1" + ":" + "-1";
    ==
      "-1:-1";
    }
  }

  /** A whole minute past the respawn instant the text reads "-1:00". */
  lemma LateWholeMinute()
    ensures CountdownText(-60_000) == "-1:00"
  {
    calc {
      CountdownText(-60_000);
    ==  { assert Minutes(-60_000) == -1 && Seconds(-60_000) == 0; }
      IntToString(-1) + ":" + PadStart(IntToString(0), 2, '0');
    ==  { MinusOne(); assert IntToString(0) == [DigitChar(0)] == "0"; }
      "-1" + ":" + PadStart("0", 2, '0');
    ==
      "-1" + ":" + "00";
    ==
      "-1:00";
    }
  }

  /** One millisecond short of a whole minute past the respawn instant the
      seconds field reaches -60 and the text reads "-1:-60". */
  lemma LateAlmostMinute()
    ensures CountdownText(-59_999) == "-1:-60"
  {
    calc {
      CountdownText(-59_999);
    ==  { assert Minutes(-59_999) == -1 && Seconds(-59_999) == -60; }
      IntToString(-1) + ":" + PadStart(IntToString(-60), 2, '0');
    ==  { MinusOne(); MinusSixty(); }
      "-1" + ":" + PadStart("-60", 2, '0');
    ==
      "-1" + ":" + "-60";
    ==
      "-1:-60";
    }
  }

  lemma MinusOne()
    ensures IntToString(-1) == "-1"
  {
    assert NatToString(1) == "1";
  }

  lemma MinusSixty()
    ensures IntToString(-60) == "-60"
  {
    assert NatToString(60) == NatToString(6) + [DigitChar(0)] == "60";
  }
}
