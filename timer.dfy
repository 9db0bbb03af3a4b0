/**
 * The recording timer of the browser client (script.js): whole elapsed
 * seconds shown as minutes, a colon and two-digit seconds.
 */
module Timer {
  import opened Wrappers
  import opened Decimal

  /** `String.prototype.padStart(width, fill)` with a one-character fill. */
  function PadStart(s: string, width: nat, fill: char): (r: string)
    ensures |r| == if |s| >= width then |s| else width
    ensures r[|r| - |s|..] == s
    ensures forall i :: 0 <= i < |r| - |s| ==> r[i] == fill
  {
    if |s| >= width then s else seq(width - |s|, _ => fill) + s
  }

  /** `formatTime(seconds)`: `Math.floor(seconds / 60)`, then `seconds % 60` padded to two digits. */
  function FormatTime(seconds: nat): string {
    NatToString(seconds / 60) + ":" + PadStart(NatToString(seconds % 60), 2, '0')
  }

  /** The position of the first `c` in `s`, if any. */
  function IndexOf(s: string, c: char): (k: Option<nat>)
    ensures k.Some? ==> k.value < |s| && s[k.value] == c && c !in s[..k.value]
    ensures k.None? ==> c !in s
  {
    if s == [] then None
    else if s[0] == c then Some(0)
    else match IndexOf(s[1..], c)
      case None => None
      case Some(j) => Some(j + 1)
  }

  /** Reads a timer display back as seconds: canonical minutes, a colon, two digits below 60. */
  function ParseTime(s: string): Option<nat> {
    match IndexOf(s, ':')
    case None => None
    case Some(k) =>
      var minutes, secs := s[..k], s[k + 1..];
      if Canonical(minutes) && |secs| == 2 && AllDigits(secs) && Value(secs) < 60
      then Some(Value(minutes) * 60 + Value(secs))
      else None
  }

  /** Padding the text of a number below 60 to two characters writes it in exactly two digits. */
  lemma PadSeconds(k: nat)
    requires k < 60
    ensures PadStart(NatToString(k), 2, '0') == Padded(k, 2)
  {
    if k < 10 {
      assert Padded(k, 2) == Padded(0, 1) + [DigitChar(k)];
    } else {
      assert NatToString(k) == [DigitChar(k / 10)] + [DigitChar(k % 10)];
    }
  }

  /** One colon between two digit strings: it is the only colon, and the first one. */
  lemma ColonLayout(m: string, ss: string)
    requires AllDigits(m) && AllDigits(ss)
    ensures var r := m + ":" + ss;
      r[..|m|] == m && r[|m| + 1..] == ss && IndexOf(r, ':') == Some(|m|)
      && forall i :: 0 <= i < |r| ==> (r[i] == ':' <==> i == |m|)
  {
    var r := m + ":" + ss;
    forall i | 0 <= i < |r|
      ensures r[i] == ':' <==> i == |m|
    {
      if i < |m| {
        assert r[i] == m[i];
      } else if i > |m| {
        assert r[i] == ss[i - |m| - 1];
      }
    }
    assert r[..|m|] == m;
    assert ':' !in r[..|m|];
  }

  /** Whole minutes and the seconds left over are the quotient and remainder by 60. */
  lemma MinutesAndSeconds(seconds: nat, minutes: nat, secs: nat)
    requires secs < 60
    ensures seconds == minutes * 60 + secs <==> (seconds / 60 == minutes && seconds % 60 == secs)
  {
  }

  /**
   * The display is the unpadded minute count, one colon, and the seconds in
   * exactly two digits; the colon appears nowhere else.
   */
  lemma FormatTimeLayout(seconds: nat)
    ensures var r, m := FormatTime(seconds), NatToString(seconds / 60);
      r == m + ":" + Padded(seconds % 60, 2)
      && Canonical(m) && Value(m) == seconds / 60
      && |r| == |m| + 3 && AllDigits(r[|m| + 1..]) && Value(r[|m| + 1..]) == seconds % 60
      && forall i :: 0 <= i < |r| ==> (r[i] == ':' <==> i == |m|)
  {
    var m, ss := NatToString(seconds / 60), Padded(seconds % 60, 2);
    PadSeconds(seconds % 60);
    ValueNatToString(seconds / 60);
    ValuePadded(seconds % 60, 2);
    ColonLayout(m, ss);
  }

  /** Reading the display back gives the elapsed seconds. */
  lemma FormatTimeRoundTrip(seconds: nat)
    ensures ParseTime(FormatTime(seconds)) == Some(seconds)
  {
    var m, ss := NatToString(seconds / 60), Padded(seconds % 60, 2);
    PadSeconds(seconds % 60);
    ValueNatToString(seconds / 60);
    ValuePadded(seconds % 60, 2);
    ParseParts(m, ss);
    MinutesAndSeconds(seconds, seconds / 60, seconds % 60);
  }

  lemma ParseParts(m: string, ss: string)
    requires Canonical(m) && |ss| == 2 && AllDigits(ss) && Value(ss) < 60
    ensures ParseTime(m + ":" + ss) == Some(Value(m) * 60 + Value(ss))
  {
    ColonLayout(m, ss);
  }

  /** Only displays parse, and the parsed seconds are displayed exactly so. */
  lemma ParseTimeSound(s: string, seconds: nat)
    requires ParseTime(s) == Some(seconds)
    ensures FormatTime(seconds) == s
  {
    var k := ParsedParts(s, seconds);
    var minutes, secs := s[..k], s[k + 1..];
    MinutesAndSeconds(seconds, Value(minutes), Value(secs));
    NatToStringValue(minutes);
    PaddedValue(secs);
    PadSeconds(Value(secs));
  }

  lemma ParsedParts(s: string, seconds: nat) returns (k: nat)
    requires ParseTime(s) == Some(seconds)
    ensures k < |s| && s == s[..k] + ":" + s[k + 1..]
    ensures Canonical(s[..k]) && |s[k + 1..]| == 2 && AllDigits(s[k + 1..]) && Value(s[k + 1..]) < 60
    ensures seconds == Value(s[..k]) * 60 + Value(s[k + 1..])
  {
    k := IndexOf(s, ':').value;
    assert s == s[..k] + [s[k]] + s[k + 1..];
  }

  /** Seconds are always two digits: 5 is shown `0:05`. */
  lemma FormatTimePadsSeconds()
    ensures FormatTime(5) == "0:05"
  {
    assert 5 / 60 == 0 && 5 % 60 == 5;
    assert PadStart("5", 2, '0') == "05";
  }

  /** A minute is shown `1:00`. */
  lemma FormatTimeWholeMinute()
    ensures FormatTime(60) == "1:00"
  {
    assert 60 / 60 == 1 && 60 % 60 == 0;
    assert PadStart("0", 2, '0') == "00";
  }

  /** Minutes are not padded and do not wrap at an hour: 3600 seconds are shown `60:00`. */
  lemma FormatTimeUnboundedMinutes()
    ensures FormatTime(3600) == "60:00"
  {
    assert 3600 / 60 == 60 && 3600 % 60 == 0;
    assert NatToString(60) == "60";
    assert PadStart("0", 2, '0') == "00";
  }
}
