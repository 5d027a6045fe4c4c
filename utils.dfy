/** The client's formatting helpers (reactNative/lib/utils.ts): uptime, truncation,
    capitalisation, the network-status label, the byte-size and speed unit choice,
    and percentage parsing. Numbers are exact `real`s; `toFixed(2)` rendering is not modelled. */
module Utils {
  import opened Types

  // ---------------------------------------------------------------------------
  // Decimal rendering of naturals (what a template literal `${n}` prints for an
  // integer-valued number), and its inverse.

  predicate IsDigit(c: char) { '0' <= c <= '9' }

  predicate AllDigits(s: string) { forall k :: 0 <= k < |s| ==> IsDigit(s[k]) }

  function DigitChar(d: nat): (c: char)
    requires d < 10
    ensures IsDigit(c)
  {
    ['0', '1', '2', '3', '4', '5', '6', '7', '8', '9'][d]
  }

  function DigitValue(c: char): (d: nat)
    requires IsDigit(c)
    ensures d < 10
  {
    (c as int - '0' as int) as nat
  }

  lemma DigitRoundTrip(d: nat)
    requires d < 10
    ensures DigitValue(DigitChar(d)) == d
  {
  }

  /** The shortest decimal numeral of `n`: never empty, digits only, no leading zero. */
  function ShowNat(n: nat): (s: string)
    ensures |s| > 0 && AllDigits(s)
    ensures n >= 10 <==> |s| > 1
    ensures n > 0 ==> s[0] != '0'
  {
    if n < 10 then [DigitChar(n)] else ShowNat(n / 10) + [DigitChar(n % 10)]
  }

  /** The value of a numeral. */
  function ReadNat(s: string): nat
    requires AllDigits(s)
  {
    if s == [] then 0 else 10 * ReadNat(s[..|s| - 1]) + DigitValue(s[|s| - 1])
  }

  lemma {:induction false} ReadShowNat(n: nat)
    ensures ReadNat(ShowNat(n)) == n
  {
    var s := ShowNat(n);
    if n < 10 {
      DigitRoundTrip(n);
    } else {
      assert s[..|s| - 1] == ShowNat(n / 10);
      DigitRoundTrip(n % 10);
      ReadShowNat(n / 10);
    }
  }

  /** Splits off the longest prefix of decimal digits. */
  function SpanDigits(s: string): (r: (string, string))
    ensures r.0 + r.1 == s && AllDigits(r.0)
    ensures r.1 == [] || !IsDigit(r.1[0])
  {
    if s == [] || !IsDigit(s[0]) then ([], s)
    else
      var (d, rest) := SpanDigits(s[1..]);
      ([s[0]] + d, rest)
  }

  lemma {:induction false} SpanDigitsOf(d: string, t: string)
    requires AllDigits(d)
    requires t == [] || !IsDigit(t[0])
    ensures SpanDigits(d + t) == (d, t)
  {
    if d != [] {
      assert (d + t)[0] == d[0] && (d + t)[1..] == d[1..] + t;
      SpanDigitsOf(d[1..], t);
      assert [d[0]] + d[1..] == d;
    } else {
      assert d + t == t;
    }
  }

  // ---------------------------------------------------------------------------
  // formatUptime (utils.ts:23-32)

  datatype Uptime = Uptime(days: nat, hours: nat, minutes: nat)

  /** The whole days, hours and minutes of an uptime given in whole seconds. */
  function UptimeParts(seconds: nat): (u: Uptime)
    ensures u.hours <= 23 && u.minutes <= 59
    ensures u.days * 86400 + u.hours * 3600 + u.minutes * 60 <= seconds
    ensures seconds < u.days * 86400 + u.hours * 3600 + u.minutes * 60 + 60
    ensures u.days * 1440 + u.hours * 60 + u.minutes == seconds / 60
    ensures u.days > 0 <==> seconds >= 86400
  {
    var days := seconds / 86400;
    var rest := seconds % 86400;
    var hours := rest / 3600;
    var minutes := (seconds % 3600) / 60;
    SplitDay(seconds, days, rest, hours);
    Uptime(days, hours, minutes)
  }

  lemma SplitDay(seconds: nat, days: nat, rest: nat, hours: nat)
    requires days == seconds / 86400 && rest == seconds % 86400 && hours == rest / 3600
    ensures seconds % 3600 == rest % 3600
    ensures hours <= 23
    ensures seconds == days * 86400 + hours * 3600 + seconds % 3600
    ensures seconds / 60 == days * 1440 + hours * 60 + (seconds % 3600) / 60
  {
    var m := rest % 3600;
    assert rest == hours * 3600 + m;
    var wholeHours := days * 24 + hours;
    assert seconds == wholeHours * 3600 + m;
    DivMod3600(seconds, wholeHours, m);
    DivMod60(m, m / 60, m % 60);
    DivMod60(seconds, wholeHours * 60 + m / 60, m % 60);
  }

  lemma DivMod60(n: int, q: int, r: int)
    requires 0 <= r < 60 && n == q * 60 + r
    ensures n / 60 == q && n % 60 == r
  {
  }

  lemma DivMod1440(n: int, q: int, r: int)
    requires 0 <= r < 1440 && n == q * 1440 + r
    ensures n / 1440 == q && n % 1440 == r
  {
  }

  lemma DivMod3600(n: int, q: int, r: int)
    requires 0 <= r < 3600 && n == q * 3600 + r
    ensures n / 3600 == q && n % 3600 == r
  {
  }

  /** `formatUptime`: "<d>d <h>h <m>m" once the uptime reaches a day, "<h>h <m>m" before. */
  function FormatUptime(seconds: nat): (r: string)
    ensures seconds < 86400 <==> 'd' !in r
  {
    var u := UptimeParts(seconds);
    var hm := ShowNat(u.hours) + "h " + ShowNat(u.minutes) + "m";
    if u.days > 0 then
      var r := ShowNat(u.days) + "d " + hm;
      assert r[|ShowNat(u.days)|] == 'd';
      r
    else
      assert forall k :: 0 <= k < |hm| ==> hm[k] != 'd' by {
        var h, m := ShowNat(u.hours), ShowNat(u.minutes);
        assert hm == h + ("h " + (m + "m"));
        forall k | 0 <= k < |hm| ensures hm[k] != 'd' {
          if k < |h| { assert hm[k] == h[k]; }
          else if k < |h| + 2 { }
          else if k < |h| + 2 + |m| { assert hm[k] == m[k - |h| - 2]; }
        }
      }
      hm
  }

  /** Reads back "<h>h <m>m" (with the given day count) from a string. */
  function ParseHoursMinutes(s: string, days: nat): Option<Uptime>
  {
    var (h, r) := SpanDigits(s);
    if h != [] && |r| >= 2 && r[0] == 'h' && r[1] == ' ' then
      var (m, r2) := SpanDigits(r[2..]);
      if m != [] && r2 == "m" then Some(Uptime(days, ReadNat(h), ReadNat(m))) else None
    else None
  }

  /** Reads back what `formatUptime` prints: an independent inverse of it. */
  function ParseUptime(s: string): Option<Uptime>
  {
    var (d, r) := SpanDigits(s);
    if d != [] && |r| >= 2 && r[0] == 'd' && r[1] == ' ' then ParseHoursMinutes(r[2..], ReadNat(d))
    else ParseHoursMinutes(s, 0)
  }

  lemma ParseNumerals(hs: string, ms: string, days: nat)
    requires hs != [] && AllDigits(hs) && ms != [] && AllDigits(ms)
    ensures ParseHoursMinutes(hs + ("h " + (ms + "m")), days) == Some(Uptime(days, ReadNat(hs), ReadNat(ms)))
  {
    var tail := "h " + (ms + "m");
    assert tail[0] == 'h' && tail[1] == ' ' && tail[2..] == ms + "m";
    SpanDigitsOf(hs, tail);
    SpanDigitsOf(ms, "m");
  }

  lemma ParseHoursMinutesOf(h: nat, m: nat, days: nat)
    ensures ParseHoursMinutes(ShowNat(h) + "h " + ShowNat(m) + "m", days) == Some(Uptime(days, h, m))
  {
    var hs, ms := ShowNat(h), ShowNat(m);
    assert hs + "h " + ms + "m" == hs + ("h " + (ms + "m"));
    ParseNumerals(hs, ms, days);
    ReadShowNat(h);
    ReadShowNat(m);
  }

  lemma ParseUptimeWithDays(d: nat, h: nat, m: nat)
    ensures ParseUptime(ShowNat(d) + "d " + (ShowNat(h) + "h " + ShowNat(m) + "m")) == Some(Uptime(d, h, m))
  {
    var ds, hm := ShowNat(d), ShowNat(h) + "h " + ShowNat(m) + "m";
    var tail := "d " + hm;
    assert ds + tail == ShowNat(d) + "d " + hm;
    assert tail[0] == 'd' && tail[1] == ' ' && tail[2..] == hm;
    SpanDigitsOf(ds, tail);
    ReadShowNat(d);
    ParseHoursMinutesOf(h, m, d);
  }

  lemma ParseUptimeNoDays(h: nat, m: nat)
    ensures ParseUptime(ShowNat(h) + "h " + ShowNat(m) + "m") == Some(Uptime(0, h, m))
  {
    var hs := ShowNat(h);
    var tail := "h " + ShowNat(m) + "m";
    assert hs + tail == ShowNat(h) + "h " + ShowNat(m) + "m";
    assert tail[0] == 'h';
    SpanDigitsOf(hs, tail);
    ParseHoursMinutesOf(h, m, 0);
  }

  /** The rendered uptime determines the days, hours and minutes it was rendered from. */
  lemma ParseFormatUptime(seconds: nat)
    ensures ParseUptime(FormatUptime(seconds)) == Some(UptimeParts(seconds))
  {
    var u := UptimeParts(seconds);
    if u.days > 0 {
      ParseUptimeWithDays(u.days, u.hours, u.minutes);
    } else {
      ParseUptimeNoDays(u.hours, u.minutes);
    }
  }

  /** Two uptimes render the same text exactly when they fall in the same whole minute. */
  lemma FormatUptimeSameMinute(a: nat, b: nat)
    ensures FormatUptime(a) == FormatUptime(b) <==> a / 60 == b / 60
  {
    ParseFormatUptime(a);
    ParseFormatUptime(b);
    var ua, ub := UptimeParts(a), UptimeParts(b);
    if a / 60 == b / 60 {
      MinuteSplitUnique(ua, ub);
    }
  }

  lemma MinuteSplitUnique(x: Uptime, y: Uptime)
    requires x.hours <= 23 && x.minutes <= 59 && y.hours <= 23 && y.minutes <= 59
    requires x.days * 1440 + x.hours * 60 + x.minutes == y.days * 1440 + y.hours * 60 + y.minutes
    ensures x == y
  {
    var n := x.days * 1440 + x.hours * 60 + x.minutes;
    DivMod1440(n, x.days, x.hours * 60 + x.minutes);
    DivMod1440(n, y.days, y.hours * 60 + y.minutes);
    DivMod60(x.hours * 60 + x.minutes, x.hours, x.minutes);
    DivMod60(y.hours * 60 + y.minutes, y.hours, y.minutes);
  }

  lemma FormatUptimeExample()
    ensures FormatUptime(3661) == "1h 1m"
  {
    assert UptimeParts(3661) == Uptime(0, 1, 1);
    assert ShowNat(1) == "1";
  }

  // ---------------------------------------------------------------------------
  // formatNetworkStatus (utils.ts:38-40)

  function FormatNetworkStatus(isInternal: bool): (r: string)
    ensures r == "Yes" <==> isInternal
    ensures r == "No" <==> !isInternal
  {
    if isInternal then "Yes" else "No"
  }

  // ---------------------------------------------------------------------------
  // capitalizeFirstLetter (utils.ts:42-44)

  predicate IsLowerAscii(c: char) { 'a' <= c <= 'z' }

  /** `toUpperCase` on one character, for ASCII letters; every other character is left as it is. */
  function UpperAscii(c: char): (u: char)
    ensures !IsLowerAscii(u)
    ensures IsLowerAscii(c) ==> u as int == c as int - 32
    ensures !IsLowerAscii(c) ==> u == c
  {
    if IsLowerAscii(c) then (c as int - 32) as char else c
  }

  function CapitalizeFirstLetter(s: string): (r: string)
    ensures |r| == |s|
    ensures s != [] ==> r[0] == UpperAscii(s[0])
    ensures forall k :: 1 <= k < |s| ==> r[k] == s[k]
  {
    if s == [] then [] else [UpperAscii(s[0])] + s[1..]
  }

  lemma CapitalizeIdempotent(s: string)
    ensures CapitalizeFirstLetter(CapitalizeFirstLetter(s)) == CapitalizeFirstLetter(s)
  {
  }

  // ---------------------------------------------------------------------------
  // truncateString (utils.ts:46-49)

  function TruncateString(str: string, maxLength: nat): (r: string)
    ensures |str| <= maxLength ==> r == str
    ensures |str| > maxLength ==> |r| == maxLength + 3
    ensures |str| > maxLength ==> r[..maxLength] == str[..maxLength] && r[maxLength..] == "..."
  {
    if |str| <= maxLength then str else str[..maxLength] + "..."
  }

  /** Truncating a truncated string changes nothing. */
  lemma TruncateIdempotent(str: string, maxLength: nat)
    ensures TruncateString(TruncateString(str, maxLength), maxLength) == TruncateString(str, maxLength)
  {
    var r := TruncateString(str, maxLength);
    if |str| > maxLength {
      assert r[..maxLength] + "..." == r;
    }
  }

  // ---------------------------------------------------------------------------
  // formatBytes (utils.ts:13-21): the unit chosen by repeated division by 1024

  const ByteUnits: seq<string> := ["Bytes", "KB", "MB", "GB", "TB"]

  function Pow1024(k: nat): (p: real)
    ensures p >= 1.0
  {
    if k == 0 then 1.0 else 1024.0 * Pow1024(k - 1)
  }

  lemma {:induction false} Pow1024Monotone(j: nat, i: nat)
    requires j <= i
    ensures Pow1024(j) <= Pow1024(i)
    decreases i
  {
    if j < i {
      Pow1024Monotone(j, i - 1);
    }
  }

  lemma DivAtLeast(b: real, p: real)
    requires p >= 1.0
    ensures b / p >= 1024.0 <==> b >= 1024.0 * p
  {
  }

  /** `i` is the unit `formatBytes` settles on for `bytes`: 1024^i <= bytes (unless i is 0)
      and bytes < 1024^(i+1) (unless i is TB, the last unit). */
  predicate IsByteUnitIndex(bytes: real, i: nat)
  {
    && i < |ByteUnits|
    && (i == 0 || bytes >= Pow1024(i))
    && (i == |ByteUnits| - 1 || bytes < Pow1024(i + 1))
  }

  /** The unit is the least one at which the loop may stop: at every earlier unit the
      scaled value was still at least 1024. */
  lemma ByteUnitIndexIsLeast(bytes: real, i: nat, j: nat)
    requires IsByteUnitIndex(bytes, i) && j < i
    ensures bytes / Pow1024(j) >= 1024.0
  {
    Pow1024Monotone(j + 1, i);
    DivAtLeast(bytes, Pow1024(j));
  }

  lemma ByteUnitIndexUnique(bytes: real, i: nat, j: nat)
    requires IsByteUnitIndex(bytes, i) && IsByteUnitIndex(bytes, j)
    ensures i == j
  {
    if i < j {
      Pow1024Monotone(i + 1, j);
    } else if j < i {
      Pow1024Monotone(j + 1, i);
    }
  }

  lemma DivStep(b: real, p: real)
    requires p >= 1.0
    ensures b / p / 1024.0 == b / (1024.0 * p)
  {
  }

  /** `formatBytes` without its `toFixed(2)` text: the scaled value, the unit index and its name. */
  method FormatBytes(bytes: real) returns (scaled: real, i: nat, unitName: string)
    ensures IsByteUnitIndex(bytes, i)
    ensures scaled == bytes / Pow1024(i)
    ensures scaled < 1024.0 || i == |ByteUnits| - 1
    ensures unitName == ByteUnits[i]
  {
    scaled, i := bytes, 0;
    while scaled >= 1024.0 && i < |ByteUnits| - 1
      invariant i < |ByteUnits|
      invariant scaled == bytes / Pow1024(i)
      invariant i == 0 || bytes >= Pow1024(i)
    {
      DivAtLeast(bytes, Pow1024(i));
      DivStep(bytes, Pow1024(i));
      scaled := scaled / 1024.0;
      i := i + 1;
    }
    DivAtLeast(bytes, Pow1024(i));
    unitName := ByteUnits[i];
  }

  // ---------------------------------------------------------------------------
  // bytesToSpeed (utils.ts:51-56)

  const SpeedUnits: seq<string> := ["B/s", "KB/s", "MB/s", "GB/s"]

  datatype Speed = Speed(scaled: real, unit: string)

  function BytesToSpeed(rate: real): (r: Speed)
    ensures r.unit == "B/s" <==> rate < 1024.0
    ensures r.unit == "KB/s" <==> 1024.0 <= rate < 1048576.0
    ensures r.unit == "MB/s" <==> 1048576.0 <= rate < 1073741824.0
    ensures r.unit == "GB/s" <==> 1073741824.0 <= rate
    ensures exists k :: 0 <= k < |SpeedUnits| && r.unit == SpeedUnits[k] && r.scaled == rate / Pow1024(k)
  {
    assert Pow1024(1) == 1024.0 && Pow1024(2) == 1048576.0 && Pow1024(3) == 1073741824.0;
    if rate < 1024.0 then Speed(rate, SpeedUnits[0])
    else if rate < 1024.0 * 1024.0 then Speed(rate / 1024.0, SpeedUnits[1])
    else if rate < 1024.0 * 1024.0 * 1024.0 then Speed(rate / (1024.0 * 1024.0), SpeedUnits[2])
    else Speed(rate / (1024.0 * 1024.0 * 1024.0), SpeedUnits[3])
  }

  /** `bytesToSpeed` picks the same unit as `formatBytes` would, except that it stops at GB. */
  lemma SpeedAgreesWithFormatBytes(rate: real, i: nat)
    requires IsByteUnitIndex(rate, i)
    ensures var k := if i < 3 then i else 3;
      BytesToSpeed(rate) == Speed(rate / Pow1024(k), SpeedUnits[k])
  {
    assert Pow1024(1) == 1024.0 && Pow1024(2) == 1048576.0 && Pow1024(3) == 1073741824.0;
    if i == 4 {
      Pow1024Monotone(3, 4);
    }
  }

  // ---------------------------------------------------------------------------
  // parsePercentage (utils.ts:5-11)

  /** `value.replace('%', '')`: removes the first occurrence of `c` only. */
  function ReplaceFirst(s: string, c: char): (r: string)
    ensures c !in s ==> r == s
    ensures c in s ==> |r| == |s| - 1 && multiset(r) + multiset{c} == multiset(s)
    ensures c in s ==> FirstRemoved(s, c, r)
  {
    if s == [] then []
    else
      assert s == [s[0]] + s[1..];
      if s[0] == c then
        assert s[..0] == [] && s[0 + 1..] == s[1..];
        s[1..]
      else
        var t := ReplaceFirst(s[1..], c);
        FirstRemovedCons(s[0], s[1..], c, t);
        [s[0]] + t
  }

  /** `r` is `s` with its first `c` taken out: the text before that `c`, then the text after it. */
  ghost predicate FirstRemoved(s: string, c: char, r: string)
  {
    exists k :: 0 <= k < |s| && s[k] == c && c !in s[..k] && r == s[..k] + s[k + 1..]
  }

  /** A character other than `c` in front of `u` stays in front of the result. */
  lemma FirstRemovedCons(x: char, u: string, c: char, t: string)
    requires x != c
    requires c in u ==> FirstRemoved(u, c, t)
    ensures c in [x] + u ==> FirstRemoved([x] + u, c, [x] + t)
  {
    var s := [x] + u;
    if c in u {
      var k :| 0 <= k < |u| && u[k] == c && c !in u[..k] && t == u[..k] + u[k + 1..];
      var j := k + 1;
      assert s[..j] == [x] + u[..k];
      assert s[j + 1..] == u[k + 1..];
      assert s[j] == c && c !in s[..j];
      assert [x] + t == s[..j] + s[j + 1..];
      assert 0 <= j < |s| && s[j] == c && c !in s[..j] && [x] + t == s[..j] + s[j + 1..];
    } else {
      assert c !in s;
    }
  }

  lemma {:induction false} ReplaceFirstTrailing(s: string, c: char)
    requires c !in s
    ensures ReplaceFirst(s + [c], c) == s
  {
    if s != [] {
      assert (s + [c])[1..] == s[1..] + [c];
      ReplaceFirstTrailing(s[1..], c);
    }
  }

  /** `parsePercentage`, with `parseFloat` as a parameter that yields None for NaN.
      `|| 0` turns NaN (and 0) into 0. */
  function ParsePercentage(value: Field, parseFloat: string -> Option<real>): (r: real)
    ensures value.Number? ==> r == value.number
    ensures value.Text? && parseFloat(ReplaceFirst(value.text, '%')).None? ==> r == 0.0
    ensures value.Text? && parseFloat(ReplaceFirst(value.text, '%')).Some? ==>
      r == parseFloat(ReplaceFirst(value.text, '%')).value
  {
    match value
    case Number(n) => n
    case Text(s) =>
      match parseFloat(ReplaceFirst(s, '%'))
      case None => 0.0
      case Some(x) => x
  }

  /** A capacity written as "<numeral>%" is parsed as the numeral without its percent sign. */
  lemma ParsePercentageTrailingSign(numeral: string, parseFloat: string -> Option<real>)
    requires '%' !in numeral
    requires parseFloat(numeral).Some?
    ensures ParsePercentage(Text(numeral + "%"), parseFloat) == parseFloat(numeral).value
  {
    ReplaceFirstTrailing(numeral, '%');
  }
}
