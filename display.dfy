/** The `HH:MM:SS` rendering of the timer (`updateTimerDisplay`,
    scripts.js:53-61), and a reader for that format that serves as its
    inverse. */
module TimerDisplay {
  import opened Wrappers
  import opened Decimal

  /** Hours, minutes and seconds of a total, as `Math.floor(s / 3600)`,
      `Math.floor((s % 3600) / 60)` and `s % 60` compute them; for a
      non-negative count JavaScript's flooring agrees with Dafny's division. */
  function Components(total: nat): (hms: (nat, nat, nat))
    ensures hms.1 < 60 && hms.2 < 60
    ensures hms.0 * 3600 + hms.1 * 60 + hms.2 == total
  {
    (total / 3600, (total % 3600) / 60, total % 60)
  }

  /** The decomposition is the only one with minutes and seconds below 60. */
  lemma ComponentsUnique(total: nat, h: nat, m: nat, sec: nat)
    requires m < 60 && sec < 60 && h * 3600 + m * 60 + sec == total
    ensures Components(total) == (h, m, sec)
  {
    var (h', m', s') := Components(total);
    assert m * 60 + sec < 3600 && m' * 60 + s' < 3600;
    assert h == h';
    assert m == m';
  }

  /** `str.padStart(width, fill)` for a one-character fill: `str` itself if it
      is long enough, otherwise `str` preceded by as many `fill` as needed. */
  function PadStart(str: string, width: nat, fill: char): (r: string)
    ensures |r| == if |str| >= width then |str| else width
    ensures r[|r| - |str|..] == str
    ensures forall i :: 0 <= i < |r| - |str| ==> r[i] == fill
  {
    if |str| >= width then str else Repeat(fill, width - |str|) + str
  }

  /** `String(n).padStart(2, '0')`. */
  function Pad2(n: nat): string {
    PadStart(FromNat(n), 2, '0')
  }

  /** A padded component is a digit string of at least two characters that
      still denotes `n`; below 100 it is exactly the tens and the units digit. */
  lemma Pad2Digits(n: nat)
    ensures AllDigits(Pad2(n)) && Value(Pad2(n)) == n && |Pad2(n)| >= 2
    ensures n < 100 ==> Pad2(n) == [DigitChar(n / 10), DigitChar(n % 10)]
  {
    var d := FromNat(n);
    if n < 10 {
      assert d == [DigitChar(n)];
      LeadingZerosIgnored(1, d);
      assert Pad2(n) == ['0'] + d;
    } else if n < 100 {
      assert FromNat(n / 10) == [DigitChar(n / 10)];
      assert d == [DigitChar(n / 10), DigitChar(n % 10)];
    }
  }

  /** What `updateTimerDisplay` writes into `#timer-display`. */
  function Format(total: nat): string {
    var (h, m, s) := Components(total);
    Pad2(h) + ":" + Pad2(m) + ":" + Pad2(s)
  }

  function TotalSeconds(h: nat, m: nat, s: nat): nat {
    h * 3600 + m * 60 + s
  }

  function TwoDigits(tens: char, units: char): nat
    requires IsDigit(tens) && IsDigit(units)
  {
    10 * DigitValue(tens) + DigitValue(units)
  }

  /** Reads `H…H:MM:SS` (at least two hour digits, then exactly two digits
      of minutes and of seconds) back into a total. */
  function Parse(text: string): Option<nat> {
    var n := |text|;
    if n < 8 then None else
      var hh, rest := text[..n - 6], text[n - 6..];
      if AllDigits(hh) && rest[0] == ':' && IsDigit(rest[1]) && IsDigit(rest[2])
         && rest[3] == ':' && IsDigit(rest[4]) && IsDigit(rest[5])
      then Some(TotalSeconds(Value(hh), TwoDigits(rest[1], rest[2]), TwoDigits(rest[4], rest[5])))
      else None
  }

  /** Parse separates the hour digits from the fixed six-character tail. */
  lemma ParseSplit(hh: string, a: char, b: char, c: char, d: char)
    requires AllDigits(hh) && |hh| >= 2
    requires IsDigit(a) && IsDigit(b) && IsDigit(c) && IsDigit(d)
    ensures Parse(hh + [':', a, b, ':', c, d])
      == Some(TotalSeconds(Value(hh), TwoDigits(a, b), TwoDigits(c, d)))
  {
    var rest := [':', a, b, ':', c, d];
    var text := hh + rest;
    assert text[..|text| - 6] == hh && text[|text| - 6..] == rest;
  }

  lemma JoinTwoDigitFields(hh: string, mm: string, ss: string)
    requires |mm| == 2 && |ss| == 2
    ensures hh + ":" + mm + ":" + ss == hh + [':', mm[0], mm[1], ':', ss[0], ss[1]]
  {
    assert ":" + mm + ":" + ss == [':', mm[0], mm[1], ':', ss[0], ss[1]];
  }

  /** Joined padded components read back to the components' total. */
  lemma ParseJoined(h: nat, m: nat, s: nat)
    requires m < 60 && s < 60
    ensures |Pad2(h) + ":" + Pad2(m) + ":" + Pad2(s)| >= 8
    ensures Parse(Pad2(h) + ":" + Pad2(m) + ":" + Pad2(s)) == Some(TotalSeconds(h, m, s))
  {
    var hh, mm, ss := Pad2(h), Pad2(m), Pad2(s);
    Pad2Digits(h);
    Pad2Digits(m);
    Pad2Digits(s);
    JoinTwoDigitFields(hh, mm, ss);
    ParseSplit(hh, mm[0], mm[1], ss[0], ss[1]);
    TwoDigitsOfPad2(m);
    TwoDigitsOfPad2(s);
  }

  lemma TwoDigitsOfPad2(n: nat)
    requires n < 100
    ensures |Pad2(n)| == 2 && IsDigit(Pad2(n)[0]) && IsDigit(Pad2(n)[1])
    ensures TwoDigits(Pad2(n)[0], Pad2(n)[1]) == n
  {
    Pad2Digits(n);
    var tens, units := DigitChar(n / 10), DigitChar(n % 10);
    assert Pad2(n)[0] == tens && Pad2(n)[1] == units;
    assert DigitValue(tens) == n / 10 && DigitValue(units) == n % 10;
  }

  /** The display never loses information: it reads back to the exact count,
      minutes and seconds take two digits each, and hours at least two. */
  lemma FormatRoundTrip(total: nat)
    ensures |Format(total)| >= 8
    ensures Parse(Format(total)) == Some(total)
  {
    var c := Components(total);
    assert Format(total) == Pad2(c.0) + ":" + Pad2(c.1) + ":" + Pad2(c.2);
    ParseJoined(c.0, c.1, c.2);
    assert TotalSeconds(c.0, c.1, c.2) == total;
  }

  /** The page's initial value of 2.5 hours shows as "02:30:00". */
  lemma FormatInitial()
    ensures Format(9000) == "02:30:00"
  {
    assert FromNat(30) == "30" by {
      assert FromNat(3) == "3";
    }
    assert Components(9000) == (2, 30, 0);
  }

  /** One hour, one minute and one second. */
  lemma FormatMixed()
    ensures Format(3661) == "01:01:01"
  {
    assert Components(3661) == (1, 1, 1);
  }

  lemma FormatZero()
    ensures Format(0) == "00:00:00"
  {
    assert Components(0) == (0, 0, 0);
  }
}
