/** The clock text `m:ss` shown for the elapsed time (`formatTime`), with
    a reader that takes the text back to a number of seconds. */
module TimeFormat {
  import opened Common

  predicate IsDigit(ch: char) {
    '0' <= ch <= '9'
  }

  predicate IsDigits(s: string) {
    forall i :: 0 <= i < |s| ==> IsDigit(s[i])
  }

  function DigitChar(d: nat): (ch: char)
    requires d < 10
    ensures IsDigit(ch) && (ch - '0') as int == d
  {
    "0123456789"[d]
  }

  /** Decimal text of n without leading zeros (`n.toString()`). */
  function Digits(n: nat): (s: string)
    ensures 1 <= |s| && IsDigits(s)
    ensures s[0] == '0' ==> n == 0 && s == "0"
    ensures n < 100 ==> |s| <= 2
  {
    if n < 10 then [DigitChar(n)] else Digits(n / 10) + [DigitChar(n % 10)]
  }

  /** The number a string of decimal digits denotes. */
  function DigitsValue(s: string): nat
    requires IsDigits(s)
  {
    if s == [] then 0 else DigitsValue(s[..|s| - 1]) * 10 + (s[|s| - 1] - '0') as nat
  }

  lemma {:induction false} DigitsRoundTrip(n: nat)
    ensures DigitsValue(Digits(n)) == n
  {
    if n >= 10 {
      var s := Digits(n);
      assert s[..|s| - 1] == Digits(n / 10);
      DigitsRoundTrip(n / 10);
    }
  }

  /** Left-pads with '0' to two characters (`padStart(2, "0")`). */
  function PadStart2(s: string): (t: string)
    ensures |s| >= 2 ==> t == s
    ensures |s| < 2 ==> |t| == 2 && t[2 - |s|..] == s && forall i :: 0 <= i < 2 - |s| ==> t[i] == '0'
    decreases 2 - |s|
  {
    if |s| >= 2 then s else PadStart2("0" + s)
  }

  /** `${minutes}:${seconds padded to two digits}`. */
  function FormatTime(seconds: nat): (t: string)
    ensures |t| >= 4 && t[|t| - 3] == ':'
    ensures IsDigits(t[..|t| - 3]) && IsDigits(t[|t| - 2..])
    ensures t[0] == '0' <==> seconds < 60
    ensures seconds < 60 ==> t[..|t| - 3] == "0"
  {
    var secs := PadStart2(Digits(seconds % 60));
    assert |secs| == 2;
    Digits(seconds / 60) + ":" + secs
  }

  /** Reads `m:ss` back: minutes before the colon, two-digit seconds below
      sixty after it. */
  function ParseTime(t: string): Option<nat> {
    if |t| < 4 || t[|t| - 3] != ':' then None
    else
      var mins, secs := t[..|t| - 3], t[|t| - 2..];
      if IsDigits(mins) && IsDigits(secs) && DigitsValue(secs) < 60
      then Some(DigitsValue(mins) * 60 + DigitsValue(secs))
      else None
  }

  /** Padding one or two digits to two keeps their value. */
  lemma PadKeepsValue(s: string)
    requires IsDigits(s) && 1 <= |s| <= 2
    ensures |PadStart2(s)| == 2 && IsDigits(PadStart2(s)) && DigitsValue(PadStart2(s)) == DigitsValue(s)
  {
    var p := PadStart2(s);
    if |s| == 1 {
      assert p == ['0', s[0]];
      assert DigitsValue(p) == DigitsValue([p[0]]) * 10 + (p[1] - '0') as nat;
      assert [p[0]][..0] == [];
      assert DigitsValue(s) == DigitsValue(s[..0]) * 10 + (s[0] - '0') as nat;
    }
  }

  /** Minutes text, a colon and a two-digit seconds field below sixty read
      back as minutes * 60 + seconds. */
  lemma ParseJoined(mins: string, secs: string)
    requires 1 <= |mins| && IsDigits(mins)
    requires |secs| == 2 && IsDigits(secs) && DigitsValue(secs) < 60
    ensures ParseTime(mins + ":" + secs) == Some(DigitsValue(mins) * 60 + DigitsValue(secs))
  {
    var t := mins + ":" + secs;
    var n := |t|;
    assert n == |mins| + 3 && t[n - 3] == ':';
    assert t[..n - 3] == mins by {
      assert forall i :: 0 <= i < |mins| ==> t[i] == mins[i];
    }
    assert t[n - 2..] == secs by {
      assert t[n - 2] == secs[0] && t[n - 1] == secs[1];
    }
  }

  /** The text for q minutes and r seconds reads back as q * 60 + r. */
  lemma MinutesSecondsRoundTrip(q: nat, r: nat)
    requires r < 60
    ensures ParseTime(Digits(q) + ":" + PadStart2(Digits(r))) == Some(q * 60 + r)
  {
    DigitsRoundTrip(q);
    DigitsRoundTrip(r);
    PadKeepsValue(Digits(r));
    ParseJoined(Digits(q), PadStart2(Digits(r)));
  }

  /** Reading the shown time gives back the elapsed seconds. */
  lemma FormatTimeRoundTrip(seconds: nat)
    ensures ParseTime(FormatTime(seconds)) == Some(seconds)
  {
    var q, r := seconds / 60, seconds % 60;
    assert q * 60 + r == seconds && r < 60;
    MinutesSecondsRoundTrip(q, r);
    assert FormatTime(seconds) == Digits(q) + ":" + PadStart2(Digits(r));
  }

  /** Different elapsed times are shown differently. */
  lemma FormatTimeInjective(a: nat, b: nat)
    requires FormatTime(a) == FormatTime(b)
    ensures a == b
  {
    FormatTimeRoundTrip(a);
    FormatTimeRoundTrip(b);
  }
}
