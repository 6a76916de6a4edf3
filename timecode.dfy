/** The SRT time-code codec: `format_time` and `parse_time_string` of
    subtitle_generator.py, on times held as whole milliseconds. */
module Timecode {
  import opened Strings


  /** `HH:MM:SS,mmm` from its fields, each zero-padded (`:02d`, `:02d`, `:02d`, `:03d`). */
  function Clock(h: nat, m: nat, s: nat, ms: nat): string {
    PadZero(h, 2) + ":" + PadZero(m, 2) + ":" + (PadZero(s, 2) + "," + PadZero(ms, 3))
  }

  /** format_time: hours and remainder by divmod with 3600 s, minutes and
      seconds by divmod with 60 s, then the millisecond part of the seconds. */
  function FormatTime(t: nat): string {
    var hours := t / 3600000;
    var remainder := t % 3600000;
    var minutes := remainder / 60000;
    var seconds := remainder % 60000;
    Clock(hours, minutes, seconds / 1000, seconds % 1000)
  }

  predicate IsTimecodeChar(c: char) { IsDigit(c) || c == ':' || c == ',' }

  /** format_time splits a time into unique clock fields: minutes and seconds
      below 60, milliseconds below 1000, hours unbounded. */
  lemma FormatTimeFields(h: nat, m: nat, s: nat, ms: nat)
    requires m < 60 && s < 60 && ms < 1000
    ensures FormatTime(h * 3600000 + m * 60000 + s * 1000 + ms) == Clock(h, m, s, ms)
  {
    var t := h * 3600000 + m * 60000 + s * 1000 + ms;
    var rem := m * 60000 + s * 1000 + ms;
    assert t / 3600000 == h && t % 3600000 == rem;
    var sec := s * 1000 + ms;
    assert rem / 60000 == m && rem % 60000 == sec;
    assert sec / 1000 == s && sec % 1000 == ms;
  }

  /** Every time splits into clock fields in range that add back up to it. */
  lemma ClockFieldsOf(t: nat) returns (h: nat, m: nat, s: nat, ms: nat)
    ensures m < 60 && s < 60 && ms < 1000
    ensures t == h * 3600000 + m * 60000 + (s * 1000 + ms)
    ensures FormatTime(t) == Clock(h, m, s, ms)
  {
    h := t / 3600000;
    var rem := t % 3600000;
    m := rem / 60000;
    var sec := rem % 60000;
    s := sec / 1000;
    ms := sec % 1000;
  }

  /** The output is made of digits, `:` and `,` only, and is exactly twelve
      characters long unless the hours need three or more digits. */
  lemma FormatTimeShape(t: nat)
    ensures forall i :: 0 <= i < |FormatTime(t)| ==> IsTimecodeChar(FormatTime(t)[i])
    ensures |FormatTime(t)| == 12 <==> t < 100 * 3600000
    ensures |FormatTime(t)| >= 12
  {
    var h, m, s, ms := ClockFieldsOf(t);
    assert Pow10(2) == 100 && Pow10(3) == 1000;
    PadZeroLength(h, 2);
    PadZeroLength(m, 2);
    PadZeroLength(s, 2);
    PadZeroLength(ms, 3);
    var r := FormatTime(t);
    forall i | 0 <= i < |r| ensures IsTimecodeChar(r[i]) {
      var a, b, c, d := PadZero(h, 2), PadZero(m, 2), PadZero(s, 2), PadZero(ms, 3);
      assert r == a + ":" + b + ":" + c + "," + d;
      if i < |a| { assert r[i] == a[i]; }
      else if i < |a| + 1 + |b| + 1 + |c| + 1 {
        if |a| < i < |a| + 1 + |b| { assert r[i] == b[i - |a| - 1]; }
        else if |a| + 1 + |b| < i < |a| + 1 + |b| + 1 + |c| { assert r[i] == c[i - |a| - |b| - 2]; }
      } else { assert r[i] == d[i - |a| - |b| - |c| - 3]; }
    }
  }

  // ---------------------------------------------------------------------
  // Parsing

  /** int(s) for the numerals this model accepts: surrounding whitespace,
      then one or more ASCII digits. */
  function ParseInt(s: string): Result<nat> {
    var t := Strip(s);
    if t != [] && AllDigits(t) then Ok(DigitsValue(t))
    else Err("invalid literal for int() with base 10")
  }

  /** The first three fraction digits as milliseconds (`.5` is 500 ms);
      further digits are truncated. */
  function FracMillis(f: string): (ms: nat)
    requires AllDigits(f)
    ensures ms < 1000
    ensures |f| >= 3 ==> ms == DigitsValue(f[..3])
    ensures |f| < 3 ==> ms == DigitsValue(f) * Pow10(3 - |f|)
  {
    var g := Slice(f + "000", 0, 3);
    assert |g| == 3 && AllDigits(g);
    DigitsValueBound(g);
    assert Pow10(3) == 1000;
    FracPadded(f, g);
    DigitsValue(g)
  }

  /** Padding fewer than three fraction digits with zeros scales them to
      milliseconds. */
  lemma FracPadded(f: string, g: string)
    requires AllDigits(f) && g == Slice(f + "000", 0, 3) && AllDigits(g)
    ensures |f| >= 3 ==> DigitsValue(g) == DigitsValue(f[..3])
    ensures |f| < 3 ==> DigitsValue(g) == DigitsValue(f) * Pow10(3 - |f|)
  {
    if |f| >= 3 {
      assert g == f[..3];
    } else {
      var k := 3 - |f|;
      assert Pow10(1) == 10 && Pow10(2) == 100 && Pow10(3) == 1000;
      ZerosAfter(f, k);
      assert g == f + Zeros(k);
    }
  }

  /** float(s) for the numerals this model accepts, in milliseconds:
      surrounding whitespace, digits, and optionally a point and more digits,
      with at least one digit in all. */
  function ParseSeconds(s: string): Result<nat> {
    var t := Strip(s);
    var pieces := Split(t, ".");
    if |pieces| == 1 && t != [] && AllDigits(t) then Ok(DigitsValue(t) * 1000)
    else if |pieces| == 2 && AllDigits(pieces[0]) && AllDigits(pieces[1]) && |pieces[0]| + |pieces[1]| > 0 then
      Ok(DigitsValue(pieces[0]) * 1000 + FracMillis(pieces[1]))
    else Err("could not convert string to float")
  }

  /** parse_time_string: commas become points, the string is split on `:`,
      and the fields are read by ParseFields. */
  function ParseTimeString(s: string): Result<nat> {
    ParseFields(Split(ReplaceChar(s, ',', '.'), ":"))
  }

  /** Hours, minutes and seconds are read from the first three fields in
      that order; a missing field raises IndexError, further fields are
      never looked at. */
  function ParseFields(parts: seq<string>): Result<nat>
    requires |parts| >= 1
  {
    var hours :- ParseInt(parts[0]);
    if |parts| < 2 then Err("list index out of range") else
    var minutes :- ParseInt(parts[1]);
    if |parts| < 3 then Err("list index out of range") else
    var seconds :- ParseSeconds(parts[2]);
    Ok(hours * 3600000 + minutes * 60000 + seconds)
  }

  predicate NoColon(s: string) { forall i :: 0 <= i < |s| ==> s[i] != ':' }

  lemma ReplaceInFields(h: string, m: string, sec: string)
    requires NoComma(h) && NoComma(m)
    ensures ReplaceChar(h + ":" + m + ":" + sec, ',', '.') == h + ":" + m + ":" + ReplaceChar(sec, ',', '.')
  {
  }

  lemma SplitThree(h: string, m: string, sec: string)
    requires NoColon(h) && NoColon(m) && NoColon(sec)
    ensures Split(h + ":" + m + ":" + sec, ":") == [h, m, sec]
  {
    UnbrokenByFirstChar(h, ":");
    UnbrokenByFirstChar(m, ":");
    UnbrokenByFirstChar(sec, ":");
    UnbrokenNoMatch(sec, ":");
    SplitWhole(sec, ":");
    SplitAfter(m, sec, ":");
    assert h + ":" + m + ":" + sec == h + ":" + (m + ":" + sec);
    SplitAfter(h, m + ":" + sec, ":");
  }

  lemma SplitFour(h: string, m: string, sec: string, extra: string)
    requires NoColon(h) && NoColon(m) && NoColon(sec)
    ensures Split(h + ":" + m + ":" + sec + ":" + extra, ":") == [h, m, sec] + Split(extra, ":")
  {
    UnbrokenByFirstChar(h, ":");
    UnbrokenByFirstChar(m, ":");
    UnbrokenByFirstChar(sec, ":");
    var tail := sec + ":" + extra;
    SplitAfter(sec, extra, ":");
    SplitAfter(m, tail, ":");
    SplitAfter(h, m + ":" + tail, ":");
    Regroup(h, m, sec, extra, ":");
  }

  lemma Regroup(a: string, b: string, c: string, d: string, sep: string)
    ensures a + sep + b + sep + c + sep + d == a + sep + (b + sep + (c + sep + d))
  {
  }

  /** Reading three fields succeeds exactly when each field is a numeral,
      and gives their weighted sum. */
  lemma ParseFieldsThree(h: string, m: string, sec: string)
    ensures var r := ParseFields([h, m, sec]);
      && (r.Ok? <==> ParseInt(h).Ok? && ParseInt(m).Ok? && ParseSeconds(sec).Ok?)
      && (r.Ok? ==> r.value == ParseInt(h).value * 3600000 + ParseInt(m).value * 60000
                                + ParseSeconds(sec).value)
  {
  }

  /** Fields after the third are never read. */
  lemma ParseFieldsExtra(parts: seq<string>, extra: seq<string>)
    requires |parts| == 3
    ensures ParseFields(parts + extra) == ParseFields(parts)
  {
  }

  /** A time string `h:m:sec` parses exactly when each field does, to their
      weighted sum, with a comma in the seconds read as a decimal point. */
  lemma ParseTimeFields(h: string, m: string, sec: string)
    requires NoColon(h) && NoColon(m) && NoColon(sec)
    requires NoComma(h) && NoComma(m)
    ensures var r := ParseTimeString(h + ":" + m + ":" + sec);
      && (r.Ok? <==> ParseInt(h).Ok? && ParseInt(m).Ok? && ParseSeconds(ReplaceChar(sec, ',', '.')).Ok?)
      && (r.Ok? ==> r.value == ParseInt(h).value * 3600000 + ParseInt(m).value * 60000
                                + ParseSeconds(ReplaceChar(sec, ',', '.')).value)
  {
    var sec' := ReplaceChar(sec, ',', '.');
    assert NoColon(sec');
    ReplaceInFields(h, m, sec);
    SplitThree(h, m, sec');
    ParseFieldsThree(h, m, sec');
  }

  /** The all-fields-parse case of ParseTimeFields, as an equation. */
  lemma ParseTimeOk(h: string, m: string, sec: string, hv: nat, mv: nat, sv: nat, v: nat)
    requires NoColon(h) && NoColon(m) && NoColon(sec)
    requires NoComma(h) && NoComma(m)
    requires ParseInt(h) == Ok(hv) && ParseInt(m) == Ok(mv) && ParseSeconds(ReplaceChar(sec, ',', '.')) == Ok(sv)
    requires v == hv * 3600000 + mv * 60000 + sv
    ensures ParseTimeString(h + ":" + m + ":" + sec) == Ok(v)
  {
    var sec' := ReplaceChar(sec, ',', '.');
    assert NoColon(sec');
    ReplaceInFields(h, m, sec);
    SplitThree(h, m, sec');
    ParseTimeVia(h + ":" + m + ":" + sec, [h, m, sec']);
    ParseFieldsOk(h, m, sec', hv, mv, sv, v);
  }

  lemma ParseTimeVia(x: string, parts: seq<string>)
    requires Split(ReplaceChar(x, ',', '.'), ":") == parts
    ensures |parts| >= 1 && ParseTimeString(x) == ParseFields(parts)
  {
  }

  lemma ParseFieldsOk(h: string, m: string, sec: string, hv: nat, mv: nat, sv: nat, v: nat)
    requires ParseInt(h) == Ok(hv) && ParseInt(m) == Ok(mv) && ParseSeconds(sec) == Ok(sv)
    requires v == hv * 3600000 + mv * 60000 + sv
    ensures ParseFields([h, m, sec]) == Ok(v)
  {
  }

  lemma ParseFieldsValue(h: string, m: string, sec: string, hv: nat, mv: nat, sv: nat)
    requires ParseInt(h) == Ok(hv) && ParseInt(m) == Ok(mv) && ParseSeconds(sec) == Ok(sv)
    ensures ParseFields([h, m, sec]).Ok?
    ensures ParseFields([h, m, sec]).value == hv * 3600000 + mv * 60000 + sv
  {
  }

  /** A fourth field in a time string is ignored. */
  lemma ParseTimeIgnoresFourthField(h: string, m: string, sec: string, extra: string)
    requires NoColon(h) && NoColon(m) && NoColon(sec)
    requires NoComma(h) && NoComma(m)
    ensures ParseTimeString(h + ":" + m + ":" + sec + ":" + extra) == ParseTimeString(h + ":" + m + ":" + sec)
  {
    var sec' := ReplaceChar(sec, ',', '.');
    assert NoColon(sec');
    ReplaceInFields(h, m, sec);
    SplitThree(h, m, sec');
    ReplaceInFields(h, m, sec + ":" + extra);
    ReplaceCharConcat(sec, ":" + extra, ',', '.');
    ReplaceCharConcat(":", extra, ',', '.');
    var extra' := ReplaceChar(extra, ',', '.');
    assert ReplaceChar(sec + ":" + extra, ',', '.') == sec' + ":" + extra';
    assert h + ":" + m + ":" + (sec' + ":" + extra') == h + ":" + m + ":" + sec' + ":" + extra';
    assert h + ":" + m + ":" + (sec + ":" + extra) == h + ":" + m + ":" + sec + ":" + extra;
    SplitFour(h, m, sec', extra');
    ParseFieldsExtra([h, m, sec'], Split(extra', ":"));
  }

  /** A time string with fewer than three fields raises. */
  lemma TooFewFields(h: string, m: string)
    requires NoColon(h) && NoColon(m)
    ensures ParseTimeString(h).Err?
    ensures ParseTimeString(h + ":" + m).Err?
  {
    var h' := ReplaceChar(h, ',', '.');
    var m' := ReplaceChar(m, ',', '.');
    assert NoColon(h') && NoColon(m');
    UnbrokenByFirstChar(h', ":");
    UnbrokenNoMatch(h', ":");
    SplitWhole(h', ":");
    UnbrokenByFirstChar(m', ":");
    UnbrokenNoMatch(m', ":");
    SplitWhole(m', ":");
    ReplaceCharConcat(h + ":", m, ',', '.');
    ReplaceCharConcat(h, ":", ',', '.');
    ReplaceCharAbsent(":", ',', '.');
    SplitAfter(h', m', ":");
  }

  lemma ParsePadded(n: nat, w: nat)
    ensures ParseInt(PadZero(n, w)) == Ok(n)
  {
    var p := PadZero(n, w);
    StripDigits(p);
    PadZeroValue(n, w);
  }

  lemma SplitSecondsClock(a: string, b: string)
    requires AllDigits(a) && AllDigits(b) && |a| > 0 && |b| > 0
    ensures Split(a + "." + b, ".") == [a, b]
    ensures Strip(a + "." + b) == a + "." + b
  {
    var t := a + "." + b;
    assert t[0] == a[0] && t[|t| - 1] == b[|b| - 1];
    StripIdentity(t);
    UnbrokenByFirstChar(a, ".");
    UnbrokenByFirstChar(b, ".");
    UnbrokenNoMatch(b, ".");
    SplitAfter(a, b, ".");
    SplitWhole(b, ".");
  }

  lemma ParseSecondsClock(s: nat, ms: nat, sv: nat)
    requires ms < 1000 && sv == s * 1000 + ms
    ensures ParseSeconds(PadZero(s, 2) + "." + PadZero(ms, 3)) == Ok(sv)
  {
    assert Pow10(3) == 1000;
    PadZeroLength(s, 2);
    PadZeroLength(ms, 3);
    PadZeroValue(s, 2);
    PadZeroValue(ms, 3);
    ParseSecondsDigits(PadZero(s, 2), PadZero(ms, 3), sv);
  }

  lemma ParseSecondsDigits(a: string, b: string, sv: nat)
    requires AllDigits(a) && AllDigits(b) && |a| > 0 && |b| == 3
    requires sv == DigitsValue(a) * 1000 + DigitsValue(b)
    ensures ParseSeconds(a + "." + b) == Ok(sv)
  {
    ParseSecondsValue(a, b, sv);
  }

  lemma ParseSecondsValue(a: string, b: string, sv: nat)
    requires AllDigits(a) && AllDigits(b) && |a| > 0 && |b| == 3
    requires sv == DigitsValue(a) * 1000 + DigitsValue(b)
    ensures ParseSeconds(a + "." + b).Ok?
    ensures ParseSeconds(a + "." + b).value == sv
  {
    SplitSecondsClock(a, b);
    assert Slice(b + "000", 0, 3) == b;
  }

  lemma ClockPieces(a: string, b: string, c: string, d: string)
    requires AllDigits(a) && AllDigits(b) && AllDigits(c) && AllDigits(d)
    ensures NoColon(c + "," + d) && NoComma(a) && NoComma(b) && NoColon(a) && NoColon(b)
    ensures ReplaceChar(c + "," + d, ',', '.') == c + "." + d
  {
  }

  lemma ParseClockStrings(a: string, b: string, c: string, d: string, hv: nat, mv: nat, sv: nat, v: nat)
    requires AllDigits(a) && AllDigits(b) && AllDigits(c) && AllDigits(d)
    requires ParseInt(a) == Ok(hv) && ParseInt(b) == Ok(mv) && ParseSeconds(c + "." + d) == Ok(sv)
    requires v == hv * 3600000 + mv * 60000 + sv
    ensures ParseTimeString(a + ":" + b + ":" + (c + "," + d)) == Ok(v)
  {
    ClockPieces(a, b, c, d);
    ParseTimeOk(a, b, c + "," + d, hv, mv, sv, v);
  }

  /** The four zero-padded fields of a clock reading, each parsing back to its value. */
  lemma ClockParts(h: nat, m: nat, s: nat, ms: nat, sv: nat) returns (a: string, b: string, c: string, d: string)
    requires ms < 1000 && sv == s * 1000 + ms
    ensures Clock(h, m, s, ms) == a + ":" + b + ":" + (c + "," + d)
    ensures AllDigits(a) && AllDigits(b) && AllDigits(c) && AllDigits(d)
    ensures ParseInt(a) == Ok(h) && ParseInt(b) == Ok(m)
    ensures ParseSeconds(c + "." + d) == Ok(sv)
  {
    a, b, c, d := PadZero(h, 2), PadZero(m, 2), PadZero(s, 2), PadZero(ms, 3);
    ParsePadded(h, 2);
    ParsePadded(m, 2);
    ParseSecondsClock(s, ms, sv);
  }

  /** format_time's output as four digit fields that parse back to fields summing to the time. */
  lemma FormatTimeParts(t: nat) returns (a: string, b: string, c: string, d: string, h: nat, m: nat, sv: nat)
    ensures FormatTime(t) == a + ":" + b + ":" + (c + "," + d)
    ensures AllDigits(a) && AllDigits(b) && AllDigits(c) && AllDigits(d)
    ensures ParseInt(a) == Ok(h) && ParseInt(b) == Ok(m) && ParseSeconds(c + "." + d) == Ok(sv)
    ensures t == h * 3600000 + m * 60000 + sv
  {
    var s, ms;
    h, m, s, ms := ClockFieldsOf(t);
    sv := s * 1000 + ms;
    a, b, c, d := ClockParts(h, m, s, ms, sv);
  }

  /** parse_time_string inverts format_time to the millisecond. */
  lemma TimecodeRoundTrip(t: nat)
    ensures ParseTimeString(FormatTime(t)) == Ok(t)
  {
    var a, b, c, d, h, m, sv := FormatTimeParts(t);
    ParseClockStrings(a, b, c, d, h, m, sv, t);
  }
}
