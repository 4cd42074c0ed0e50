/** formatTime: elapsed seconds rendered as MM:SS. */
module TimeFormat {
  import Arith

  /** Whole minutes and the remaining seconds of an elapsed time. */
  function TimeParts(totalSeconds: nat): (r: (nat, nat))
    ensures r.1 < 60
    ensures r.0 * 60 + r.1 == totalSeconds
  {
    (totalSeconds / 60, totalSeconds % 60)
  }

  function DigitChar(d: nat): (c: char)
    requires d < 10
    ensures '0' <= c <= '9'
  {
    ('0' as int + d) as char
  }

  function DigitValue(c: char): nat
  {
    if '0' <= c <= '9' then (c as int) - ('0' as int) else 0
  }

  predicate IsDigits(s: string) {
    forall k :: 0 <= k < |s| ==> '0' <= s[k] <= '9'
  }

  /** `String(n)`: the decimal digits of a natural number, no leading zero. */
  function Decimal(n: nat): (r: string)
    ensures 1 <= |r| && IsDigits(r)
    ensures n < 10 <==> |r| == 1
    ensures n < 100 ==> |r| <= 2
    ensures r[0] == '0' <==> n == 0
  {
    if n < 10 then [DigitChar(n)] else Decimal(n / 10) + [DigitChar(n % 10)]
  }

  /** The value of a string of decimal digits; leading zeros add nothing. */
  function ParseDecimal(s: string): nat
  {
    if |s| == 0 then 0 else 10 * ParseDecimal(s[..|s| - 1]) + DigitValue(s[|s| - 1])
  }

  /** `s.padStart(width, pad)`: prefix copies of `pad` up to `width` characters. */
  function PadStart(s: string, width: nat, pad: char): (r: string)
    ensures |r| == if |s| >= width then |s| else width
    ensures r[|r| - |s|..] == s
    ensures forall k :: 0 <= k < |r| - |s| ==> r[k] == pad
  {
    if |s| >= width then s else seq(width - |s|, _ => pad) + s
  }

  /** One field of formatTime: the number rendered and zero-padded to two
      places. */
  function Field(n: nat): string
  {
    PadStart(Decimal(n), 2, '0')
  }

  /** formatTime: minutes and seconds, each zero-padded to two digits,
      joined by a colon. */
  function FormatTime(totalSeconds: nat): (r: string)
    ensures |r| >= 5
  {
    var parts := TimeParts(totalSeconds);
    Field(parts.0) + ":" + Field(parts.1)
  }

  /** Joining a field with a two-character field by a colon leaves each
      field three places apart. */
  lemma JoinFields(m: string, s: string)
    requires |s| == 2
    ensures var r := m + ":" + s;
      |r| == |m| + 3 && r[|r| - 3] == ':' && r[..|r| - 3] == m && r[|r| - 2..] == s
  {
  }

  /** A number rendered and zero-padded to two places is all digits. */
  lemma PaddedDigits(n: nat)
    ensures IsDigits(Field(n))
    ensures |Field(n)| == if n < 100 then 2 else |Decimal(n)|
  {
    var d := Decimal(n);
    var p := PadStart(d, 2, '0');
    forall k | 0 <= k < |p|
      ensures '0' <= p[k] <= '9'
    {
      if k >= |p| - |d| {
        assert p[k] == p[|p| - |d|..][k - (|p| - |d|)];
      }
    }
    if n >= 100 {
      DecimalLength(n);
    }
  }

  /** Two digit fields joined by a colon, the second of width two. */
  lemma JoinedDigits(m: string, s: string)
    requires |s| == 2 && IsDigits(m) && IsDigits(s)
    ensures var r := m + ":" + s;
      && |r| == |m| + 3 && r[|r| - 3] == ':'
      && IsDigits(r[..|r| - 3]) && IsDigits(r[|r| - 2..])
  {
    JoinFields(m, s);
  }

  /** The minutes field takes two characters exactly below 100 minutes. */
  lemma MinutesWidth(totalSeconds: nat)
    ensures totalSeconds < 6000 <==> |Field(TimeParts(totalSeconds).0)| == 2
  {
    var minutes := TimeParts(totalSeconds).0;
    Arith.DivAtLeast(totalSeconds, 60, 100);
    assert totalSeconds < 6000 <==> minutes < 100;
    PaddedDigits(minutes);
    if minutes >= 100 {
      DecimalLength(minutes);
    }
  }

  /** The shape of a formatted time: digits, a colon three places from the
      end, two digits of seconds. */
  lemma FormatTimeShape(totalSeconds: nat)
    ensures var r := FormatTime(totalSeconds);
      && r[|r| - 3] == ':'
      && IsDigits(r[..|r| - 3]) && IsDigits(r[|r| - 2..])
  {
    var parts := TimeParts(totalSeconds);
    var m, s := Field(parts.0), Field(parts.1);
    PaddedDigits(parts.0);
    PaddedDigits(parts.1);
    JoinedDigits(m, s);
  }

  /** A formatted time has exactly five characters below 100 minutes, and
      more from 100 minutes on. */
  lemma FormatTimeWidth(totalSeconds: nat)
    ensures totalSeconds < 6000 <==> |FormatTime(totalSeconds)| == 5
  {
    var parts := TimeParts(totalSeconds);
    assert |FormatTime(totalSeconds)| == |Field(parts.0)| + 1 + |Field(parts.1)|;
    assert |Field(parts.1)| == 2 by {
      PaddedDigits(parts.1);
    }
    assert totalSeconds < 6000 <==> |Field(parts.0)| == 2 by {
      MinutesWidth(totalSeconds);
    }
  }

  /** Reads back a MM:SS string: the digits before the last colon are minutes. */
  function ParseTime(r: string): nat
    requires |r| >= 3
  {
    60 * ParseDecimal(r[..|r| - 3]) + ParseDecimal(r[|r| - 2..])
  }

  lemma {:induction false} ParseDecimalOfDecimal(n: nat)
    ensures ParseDecimal(Decimal(n)) == n
  {
    if n >= 10 {
      var d := Decimal(n);
      assert d[..|d| - 1] == Decimal(n / 10);
      ParseDecimalOfDecimal(n / 10);
    }
  }

  lemma {:induction false} ParseDecimalLeadingZeros(k: nat, s: string)
    ensures ParseDecimal(seq(k, _ => '0') + s) == ParseDecimal(s)
    decreases |s|, k
  {
    var z := seq(k, _ => '0');
    if |s| > 0 {
      assert (z + s)[..|z + s| - 1] == z + s[..|s| - 1];
      ParseDecimalLeadingZeros(k, s[..|s| - 1]);
    } else if k > 0 {
      assert z + s == z;
      assert z[..k - 1] == seq(k - 1, _ => '0') + [];
      ParseDecimalLeadingZeros(k - 1, []);
      assert seq(k - 1, _ => '0') + [] == seq(k - 1, _ => '0');
    }
  }

  /** Zero padding keeps the value of a rendered number. */
  lemma PaddedValue(n: nat)
    ensures ParseDecimal(Field(n)) == n
  {
    var d := Decimal(n);
    ParseDecimalOfDecimal(n);
    if |d| < 2 {
      ParseDecimalLeadingZeros(2 - |d|, d);
    }
  }

  /** Numbers from 100 up take at least three digits. */
  lemma {:induction false} DecimalLength(n: nat)
    requires n >= 100
    ensures |Decimal(n)| >= 3
  {
    assert n / 10 >= 10;
  }

  /** Reading back two joined fields gives their values. */
  lemma ParseJoined(m: string, s: string)
    requires |s| == 2
    ensures ParseTime(m + ":" + s) == 60 * ParseDecimal(m) + ParseDecimal(s)
  {
    JoinFields(m, s);
  }

  /** Reading a formatted time back yields the seconds it was made from:
      the field before the colon holds the whole minutes, the two digits after
      it the remaining seconds, below 60. */
  lemma FormatTimeRoundTrip(totalSeconds: nat)
    ensures var r := FormatTime(totalSeconds);
      && ParseDecimal(r[..|r| - 3]) == totalSeconds / 60
      && ParseDecimal(r[|r| - 2..]) == totalSeconds % 60 < 60
    ensures ParseTime(FormatTime(totalSeconds)) == totalSeconds
  {
    var parts := TimeParts(totalSeconds);
    var m := Field(parts.0);
    var s := Field(parts.1);
    PaddedDigits(parts.1);
    JoinFields(m, s);
    ParseJoined(m, s);
    PaddedValue(parts.0);
    PaddedValue(parts.1);
    assert FormatTime(totalSeconds) == m + ":" + s;
  }

  /** Example: 75 seconds is shown as 01:15. */
  lemma FormatTimeExample()
    ensures FormatTime(75) == "01:15"
  {
    assert TimeParts(75) == (1, 15);
    assert Decimal(1) == ['1'];
    assert Decimal(15) == Decimal(1) + [DigitChar(5)] == ['1', '5'];
    assert PadStart(['1'], 2, '0') == ['0', '1'];
    assert PadStart(['1', '5'], 2, '0') == ['1', '5'];
  }
}
