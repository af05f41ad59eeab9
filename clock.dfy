/** The elapsed-time text the timer and the win screen show ("MM:SS"), and the
    score service's reading of that text back into whole seconds. */
module Clock {
  import opened Wrappers
  import opened Chars

  /** Whole minutes in `elapsed` milliseconds. */
  function Minutes(elapsed: nat): nat
  {
    elapsed / 60000
  }

  /** Whole seconds past the last whole minute. */
  function Seconds(elapsed: nat): nat
  {
    (elapsed % 60000) / 1000
  }

  /** The seconds field stays below a minute, and the two fields together count
      the whole seconds elapsed. */
  lemma ClockFields(elapsed: nat)
    ensures Seconds(elapsed) < 60
    ensures Minutes(elapsed) * 60 + Seconds(elapsed) == elapsed / 1000
  {
    var q, r := elapsed / 60000, elapsed % 60000;
    assert elapsed == 60000 * q + r;
    var s, u := r / 1000, r % 1000;
    assert r == 1000 * s + u && u < 1000;
    assert s < 60;
    assert elapsed == 1000 * (60 * q + s) + u;
  }

  predicate AllDigits(s: string)
  {
    forall i :: 0 <= i < |s| ==> IsAsciiDigit(s[i])
  }

  function DigitChar(d: nat): (ch: char)
    requires d < 10
    ensures IsAsciiDigit(ch)
  {
    (48 + d) as char
  }

  /** The value of a string of decimal digits, read left to right. */
  function DigitsValue(s: string): nat
    requires AllDigits(s)
  {
    if s == [] then 0 else DigitsValue(s[..|s| - 1]) * 10 + (s[|s| - 1] as int - 48)
  }

  /** `String(n)` for a whole number: its decimal digits, no leading zero. */
  function Decimal(n: nat): (r: string)
    ensures 1 <= |r| && AllDigits(r)
    ensures n < 10 <==> |r| == 1
    ensures n < 100 ==> |r| <= 2
  {
    if n < 10 then [DigitChar(n)] else Decimal(n / 10) + [DigitChar(n % 10)]
  }

  /** Reading the digits back gives the number. */
  lemma {:induction false} DecimalRoundTrip(n: nat)
    ensures DigitsValue(Decimal(n)) == n
  {
    if n >= 10 {
      DecimalRoundTrip(n / 10);
      var r := Decimal(n);
      assert r[..|r| - 1] == Decimal(n / 10);
    }
  }

  /** `padStart(2, '0')`: zeros in front up to two characters; a longer string is
      left whole. */
  function PadTwo(s: string): (r: string)
    ensures |r| == if |s| >= 2 then |s| else 2
    ensures r[|r| - |s|..] == s
    ensures forall i :: 0 <= i < |r| - |s| ==> r[i] == '0'
  {
    if |s| >= 2 then s else seq(2 - |s|, _ => '0') + s
  }

  lemma {:induction false} ZerosValue(z: nat)
    ensures AllDigits(seq(z, _ => '0')) && DigitsValue(seq(z, _ => '0')) == 0
  {
    if z > 0 {
      ZerosValue(z - 1);
      assert seq(z, _ => '0')[..z - 1] == seq(z - 1, _ => '0');
    }
  }

  /** Leading zeros do not change the value. */
  lemma {:induction false} LeadingZerosValue(z: nat, s: string)
    requires AllDigits(s)
    ensures AllDigits(seq(z, _ => '0') + s)
    ensures DigitsValue(seq(z, _ => '0') + s) == DigitsValue(s)
  {
    ZerosValue(z);
    var t := seq(z, _ => '0') + s;
    if s == [] {
      assert t == seq(z, _ => '0');
    } else {
      LeadingZerosValue(z, s[..|s| - 1]);
      assert t[..|t| - 1] == seq(z, _ => '0') + s[..|s| - 1];
    }
  }

  /** A padded field of digits is still all digits, with the same value. */
  lemma PadTwoValue(s: string)
    requires AllDigits(s)
    ensures AllDigits(PadTwo(s)) && DigitsValue(PadTwo(s)) == DigitsValue(s)
  {
    if |s| < 2 {
      LeadingZerosValue(2 - |s|, s);
    }
  }

  /** The displayed time: zero-padded minutes, a colon, zero-padded seconds. It is
      never shorter than "MM:SS" and is exactly that long below 100 minutes. */
  function FormatElapsed(elapsed: nat): (t: string)
    ensures |t| >= 5 && t[|t| - 3] == ':'
    ensures Minutes(elapsed) < 100 ==> |t| == 5
  {
    ClockFields(elapsed);
    PadTwo(Decimal(Minutes(elapsed))) + ":" + PadTwo(Decimal(Seconds(elapsed)))
  }

  /** The first position of `ch` in `s`. */
  function IndexOf(s: string, ch: char): (r: Option<nat>)
    ensures r.None? <==> ch !in s
    ensures r.Some? ==> r.value < |s| && s[r.value] == ch && ch !in s[..r.value]
  {
    if s == [] then None
    else if s[0] == ch then Some(0)
    else match IndexOf(s[1..], ch)
      case None => None
      case Some(i) => assert s[..i + 1] == [s[0]] + s[1..][..i]; Some(i + 1)
  }

  /** How many decimal digits `s` starts with. */
  function LeadingDigits(s: string): (k: nat)
    ensures k <= |s| && AllDigits(s[..k])
    ensures k < |s| ==> !IsAsciiDigit(s[k])
  {
    if s == [] || !IsAsciiDigit(s[0]) then 0
    else
      var k := 1 + LeadingDigits(s[1..]);
      assert s[..k] == [s[0]] + s[1..][..k - 1];
      k
  }

  /** `parseInt(s, 10)`: the value of the leading digits, or nothing (NaN) when
      `s` does not start with a digit. */
  function ParseInt(s: string): Option<nat>
  {
    var k := LeadingDigits(s);
    if k == 0 then None else Some(DigitsValue(s[..k]))
  }

  /** The score service's `convertToSeconds`: split at the colons, parse the first
      two parts, minutes times sixty plus seconds; nothing when either part is
      missing or does not start with a digit. */
  function ConvertToSeconds(t: string): Option<nat>
  {
    match IndexOf(t, ':')
    case None => None
    case Some(i) => ConvertFields(t, i)
  }

  /** Minutes before the colon at `i`, seconds after it. */
  function ConvertFields(t: string, i: nat): Option<nat>
    requires i < |t|
  {
    var minutes := ParseInt(t[..i]);
    var seconds := ParseInt(SecondField(t[i + 1..]));
    if minutes.Some? && seconds.Some? then Some(minutes.value * 60 + seconds.value) else None
  }

  /** The second part of the split: up to the next colon, if any. */
  function SecondField(rest: string): string
  {
    match IndexOf(rest, ':')
    case None => rest
    case Some(j) => rest[..j]
  }

  /** A non-empty field of digits parses to its value. */
  lemma ParseDigits(s: string)
    requires 1 <= |s| && AllDigits(s)
    ensures ParseInt(s) == Some(DigitsValue(s))
  {
    var k := LeadingDigits(s);
    assert k == |s|;
    assert s[..k] == s;
  }

  /** A field of digits holds no colon. */
  lemma DigitsHaveNoColon(s: string)
    requires AllDigits(s)
    ensures IndexOf(s, ':') == None
  {
    assert ':' !in s by {
      forall j | 0 <= j < |s| ensures s[j] != ':' {
        assert IsAsciiDigit(s[j]);
      }
    }
  }

  /** `IndexOf` finds the first occurrence. */
  lemma {:induction false} IndexOfFirst(s: string, ch: char, k: nat)
    requires k < |s| && s[k] == ch && ch !in s[..k]
    ensures IndexOf(s, ch) == Some(k)
  {
    if k > 0 {
      assert s[0] == s[..k][0];
      assert s[1..][..k - 1] == s[1..k];
      assert s[1..k] == s[..k][1..];
      IndexOfFirst(s[1..], ch, k - 1);
    }
  }

  /** After a field of digits, the first colon is the one that ends it. */
  lemma FirstColonAfterDigits(mm: string, rest: string)
    requires AllDigits(mm)
    ensures IndexOf(mm + ":" + rest, ':') == Some(|mm|)
  {
    var t := mm + ":" + rest;
    assert t[..|mm|] == mm;
    DigitsHaveNoColon(mm);
    IndexOfFirst(t, ':', |mm|);
  }

  /** When the first colon is at `i` and both parts parse, the text reads as
      minutes times sixty plus seconds. */
  lemma ConvertAt(t: string, i: nat, m: nat, s: nat)
    requires IndexOf(t, ':') == Some(i)
    requires ParseInt(t[..i]) == Some(m) && ParseInt(SecondField(t[i + 1..])) == Some(s)
    ensures ConvertToSeconds(t) == Some(m * 60 + s)
  {
    assert ConvertToSeconds(t) == ConvertFields(t, i);
  }

  /** Two fields of digits joined by a colon read as minutes and seconds. */
  lemma {:induction false} ConvertJoined(mm: string, ss: string, m: nat, s: nat)
    requires 1 <= |mm| && AllDigits(mm) && 1 <= |ss| && AllDigits(ss)
    requires DigitsValue(mm) == m && DigitsValue(ss) == s
    ensures ConvertToSeconds(mm + ":" + ss) == Some(m * 60 + s)
  {
    var t := mm + ":" + ss;
    FirstColonAfterDigits(mm, ss);
    assert t[..|mm|] == mm;
    assert t[|mm| + 1..] == ss;
    DigitsHaveNoColon(ss);
    ParseDigits(mm);
    ParseDigits(ss);
    assert SecondField(ss) == ss;
    ConvertAt(t, |mm|, m, s);
  }

  /** Padded minutes and seconds joined by a colon read back as their total. */
  lemma {:induction false} FieldsRoundTrip(m: nat, s: nat)
    ensures ConvertToSeconds(PadTwo(Decimal(m)) + ":" + PadTwo(Decimal(s))) == Some(m * 60 + s)
  {
    var mm, ss := PadTwo(Decimal(m)), PadTwo(Decimal(s));
    PadTwoValue(Decimal(m));
    PadTwoValue(Decimal(s));
    DecimalRoundTrip(m);
    DecimalRoundTrip(s);
    ConvertJoined(mm, ss, m, s);
  }

  /** The displayed time reads back as its two fields. */
  lemma {:induction false} ElapsedReads(elapsed: nat)
    ensures ConvertToSeconds(FormatElapsed(elapsed)) == Some(Minutes(elapsed) * 60 + Seconds(elapsed))
  {
    FieldsRoundTrip(Minutes(elapsed), Seconds(elapsed));
  }

  /** Reading the displayed time back gives the whole seconds elapsed. */
  lemma {:induction false} FormatRoundTrip(elapsed: nat)
    ensures ConvertToSeconds(FormatElapsed(elapsed)) == Some(elapsed / 1000)
  {
    ElapsedReads(elapsed);
    SecondsTotal(ConvertToSeconds(FormatElapsed(elapsed)), elapsed);
  }

  /** A reading of minutes times sixty plus seconds is the whole seconds elapsed. */
  lemma SecondsTotal(reading: Option<nat>, elapsed: nat)
    requires reading == Some(Minutes(elapsed) * 60 + Seconds(elapsed))
    ensures reading == Some(elapsed / 1000)
  {
    ClockFields(elapsed);
  }
}
