/**
 * The pure helpers of utils.js that the page consults: extension extraction,
 * the type and size validators over the configuration tables, the duration
 * formatter on whole seconds, and the level test of `log`.
 */
module Utils {
  import opened Options
  import opened Config

  // ---------------------------------------------------------------------------
  // Strings

  /** `s.lastIndexOf(c)`: the position of the last `c`, or -1 when there is none. */
  function LastIndexOf(s: string, c: char): (r: int)
    ensures -1 <= r < |s|
    ensures r == -1 <==> c !in s
    ensures 0 <= r ==> s[r] == c && c !in s[r + 1..]
  {
    if |s| == 0 then -1
    else if s[|s| - 1] == c then |s| - 1
    else LastIndexOf(s[..|s| - 1], c)
  }

  /**
   * `toLowerCase` on one character, restricted to the characters whose lower
   * case is ASCII: the ASCII capitals and the Kelvin sign.
   */
  function LowerChar(c: char): char
  {
    if 'A' <= c <= 'Z' then (c as int - 'A' as int + 'a' as int) as char
    else if c == '\U{212A}' then 'k'
    else c
  }

  function Lower(s: string): (r: string)
    ensures |r| == |s|
    ensures forall k :: 0 <= k < |s| ==> (r[k] == '.' <==> s[k] == '.')
    ensures forall k :: 0 <= k < |s| ==> !FoldsToAscii(r[k])
    ensures IsExtensionShaped(s) ==> r == s
  {
    seq(|s|, k requires 0 <= k < |s| => LowerChar(s[k]))
  }

  /** Lower-casing twice is lower-casing once. */
  lemma LowerIdempotent(s: string)
    ensures Lower(Lower(s)) == Lower(s)
  {
    var once := Lower(s);
    forall k | 0 <= k < |s|
      ensures Lower(once)[k] == once[k]
    {
      assert !FoldsToAscii(once[k]);
    }
  }

  // ---------------------------------------------------------------------------
  // Extensions

  /** `filename.split('.').pop().toLowerCase()`. */
  function GetFileExtension(name: string): string
  {
    Lower(name[LastIndexOf(name, '.') + 1..])
  }

  /**
   * The extension is the longest dot-free suffix of the name, lower-cased: the
   * text after the last dot, or the whole name when there is no dot, and the
   * empty string when the name ends with a dot.
   */
  lemma GetFileExtensionSpec(name: string)
    ensures var r := GetFileExtension(name);
            && |r| <= |name|
            && r == Lower(name[|name| - |r|..])
            && '.' !in r
            && ('.' in name ==> name[|name| - |r| - 1] == '.')
            && ('.' !in name ==> r == Lower(name))
            && (|name| > 0 && name[|name| - 1] == '.' ==> r == "")
  {
    var raw := name[LastIndexOf(name, '.') + 1..];
    var r := Lower(raw);
    forall k | 0 <= k < |r| ensures r[k] != '.' {
      assert raw[k] in raw;
    }
  }

  /** Lower-casing commutes with dropping a prefix. */
  lemma LowerDrop(s: string, j: nat)
    requires j <= |s|
    ensures Lower(s)[j..] == Lower(s[j..])
  {
    var a := Lower(s)[j..];
    var b := Lower(s[j..]);
    forall k | 0 <= k < |s| - j ensures a[k] == b[k] {
      assert a[k] == LowerChar(s[j + k]);
      assert b[k] == LowerChar(s[j..][k]);
    }
  }

  /** Lower-casing commutes with keeping a prefix. */
  lemma LowerTake(s: string, j: nat)
    requires j <= |s|
    ensures Lower(s)[..j] == Lower(s[..j])
  {
    var a := Lower(s)[..j];
    var b := Lower(s[..j]);
    forall k | 0 <= k < j ensures a[k] == b[k] {
      assert a[k] == LowerChar(s[k]);
      assert b[k] == LowerChar(s[..j][k]);
    }
  }

  /** Lower-casing moves no dot, so the last dot stays where it was. */
  lemma {:induction false} LastDotOfLower(name: string)
    ensures LastIndexOf(Lower(name), '.') == LastIndexOf(name, '.')
  {
    if |name| > 0 {
      LowerTake(name, |name| - 1);
      LastDotOfLower(name[..|name| - 1]);
    }
  }

  /** The extension test is insensitive to the case of the name. */
  lemma ExtensionIgnoresCase(name: string)
    ensures GetFileExtension(Lower(name)) == GetFileExtension(name)
  {
    var j := LastIndexOf(name, '.') + 1;
    assert GetFileExtension(Lower(name)) == Lower(Lower(name)[j..]) by {
      LastDotOfLower(name);
    }
    LowerDrop(name, j);
    LowerIdempotent(name[j..]);
  }

  /** `ACCEPTED_TYPES[conversionType]?.extensions || []`. */
  function AllowedExtensions(conversionType: string): (r: seq<string>)
    ensures CategoryNamed(conversionType) == None ==> r == []
  {
    match CategoryNamed(conversionType)
    case Some(c) => AcceptedExtensions(c)
    case None => []
  }

  /**
   * `validateFileType`: the name's extension is listed for the named category;
   * a name that is not a category accepts nothing.
   */
  function ValidateFileType(fileName: string, conversionType: string): (ok: bool)
    ensures ok <==> CategoryNamed(conversionType).Some?
                    && GetFileExtension(fileName) in AcceptedExtensions(CategoryNamed(conversionType).value)
  {
    GetFileExtension(fileName) in AllowedExtensions(conversionType)
  }

  /** A file is accepted by at most one category name. */
  lemma ValidateFileTypeUnique(fileName: string, t1: string, t2: string)
    requires ValidateFileType(fileName, t1) && ValidateFileType(fileName, t2)
    ensures t1 == t2
  {
    var c1 := CategoryNamed(t1).value;
    var c2 := CategoryNamed(t2).value;
    ExtensionsDisjoint(c1, c2, GetFileExtension(fileName));
    match c1
    case Document => assert t1 == "document" == t2;
    case Image => assert t1 == "image" == t2;
    case Video => assert t1 == "video" == t2;
    case Audio => assert t1 == "audio" == t2;
  }

  /** Upper-case names are accepted exactly when their lower-case forms are. */
  lemma ValidateFileTypeIgnoresCase(fileName: string, conversionType: string)
    ensures ValidateFileType(Lower(fileName), conversionType) == ValidateFileType(fileName, conversionType)
  {
    ExtensionIgnoresCase(fileName);
  }

  /** A Kelvin sign in the extension folds to `k`, so "clip.mKv" is a video. */
  lemma KelvinSignValidates()
    ensures GetFileExtension("clip.m\U{212A}v") == "mkv"
    ensures ValidateFileType("clip.m\U{212A}v", "video")
  {
    var name := "clip.m\U{212A}v";
    assert LastIndexOf(name, '.') == 4;
    assert name[5..] == "m\U{212A}v";
    assert Lower("m\U{212A}v") == "mkv";
  }

  /** `validateFileSize`: the limit itself is still accepted. */
  function ValidateFileSize(size: nat): (ok: bool)
    ensures ok <==> size <= 104857600
  {
    size <= MaxSize
  }

  // ---------------------------------------------------------------------------
  // Decimal numerals (JavaScript's rendering of a non-negative integer)

  predicate IsDigit(c: char) { '0' <= c <= '9' }

  function DigitChar(d: nat): (c: char)
    requires d < 10
    ensures IsDigit(c)
  {
    ('0' as int + d) as char
  }

  function DigitValue(c: char): nat
  {
    if IsDigit(c) then c as int - '0' as int else 0
  }

  /** `${n}` for a natural number below 1e21: its decimal digits without leading zeros. */
  function NatToString(n: nat): (r: string)
    ensures |r| >= 1
    decreases n
  {
    if n < 10 then [DigitChar(n)] else NatToString(n / 10) + [DigitChar(n % 10)]
  }

  /** A numeral is all digits, with no leading zero unless it is "0". */
  lemma {:induction false} NatToStringDigits(n: nat)
    ensures var r := NatToString(n);
            && (forall k :: 0 <= k < |r| ==> IsDigit(r[k]))
            && (|r| > 1 ==> r[0] != '0')
    decreases n
  {
    if n >= 10 {
      NatToStringDigits(n / 10);
      var r := NatToString(n);
      var d := NatToString(n / 10);
      assert r == d + [DigitChar(n % 10)];
      forall k | 0 <= k < |r| ensures IsDigit(r[k]) {
        if k < |d| {
          assert r[k] == d[k];
        }
      }
      if n / 10 < 10 {
        assert d == [DigitChar(n / 10)];
      }
    }
  }

  /** The value of a run of decimal digits. */
  function ParseNat(s: string): nat
  {
    if s == [] then 0 else 10 * ParseNat(s[..|s| - 1]) + DigitValue(s[|s| - 1])
  }

  lemma {:induction false} ParseNatToString(n: nat)
    ensures ParseNat(NatToString(n)) == n
    decreases n
  {
    if n >= 10 {
      var s := NatToString(n);
      assert s[..|s| - 1] == NatToString(n / 10);
      ParseNatToString(n / 10);
    }
  }

  /** Length of the leading run of digits. */
  function SpanDigits(s: string): (n: nat)
    ensures n <= |s|
    ensures forall k :: 0 <= k < n ==> IsDigit(s[k])
    ensures n < |s| ==> !IsDigit(s[n])
  {
    if s == [] || !IsDigit(s[0]) then 0 else 1 + SpanDigits(s[1..])
  }

  lemma SpanDigitsOfNumeral(n: nat, rest: string)
    requires rest == [] || !IsDigit(rest[0])
    ensures SpanDigits(NatToString(n) + rest) == |NatToString(n)|
  {
    var d := NatToString(n);
    var t := d + rest;
    var i := SpanDigits(t);
    NatToStringDigits(n);
    forall k | 0 <= k < |d| ensures IsDigit(t[k]) { }
    if |d| < |t| {
      assert t[|d|] == rest[0];
    }
  }

  /** Reading a numeral followed by other text gives back the number and the text. */
  lemma ReadNumeral(n: nat, rest: string)
    requires rest == [] || !IsDigit(rest[0])
    ensures var t := NatToString(n) + rest;
            var i := SpanDigits(t);
            i > 0 && t[..i] == NatToString(n) && ParseNat(t[..i]) == n && t[i..] == rest
  {
    SpanDigitsOfNumeral(n, rest);
    var t := NatToString(n) + rest;
    assert t[..|NatToString(n)|] == NatToString(n);
    assert t[|NatToString(n)|..] == rest;
    ParseNatToString(n);
  }

  // ---------------------------------------------------------------------------
  // Durations

  /** The components a rendered duration shows. */
  datatype Duration = Secs(s: nat) | MinSecs(m: nat, s: nat) | HoursMins(h: nat, m: nat)

  /** `formatDuration` on a whole number of seconds (so `Math.round` is the identity). */
  function FormatDuration(seconds: nat): string
  {
    if seconds < 60 then
      NatToString(seconds) + "s"
    else if seconds < 3600 then
      NatToString(seconds / 60) + "m " + NatToString(seconds % 60) + "s"
    else
      NatToString(seconds / 3600) + "h " + NatToString((seconds % 3600) / 60) + "m"
  }

  /** A numeral immediately followed by `unit` and nothing else. */
  function ParseAmount(t: string, unit: char): Option<nat>
  {
    var i := SpanDigits(t);
    if i > 0 && t[i..] == [unit] then Some(ParseNat(t[..i])) else None
  }

  /** Reads back the components of a rendered duration. */
  function ParseDuration(t: string): Option<Duration>
  {
    var i := SpanDigits(t);
    if i == 0 then None else ParseUnits(ParseNat(t[..i]), t[i..])
  }

  /** The rest of a rendered duration after its leading number `n`. */
  function ParseUnits(n: nat, rest: string): Option<Duration>
  {
    if rest == "s" then Some(Secs(n))
    else if |rest| >= 2 && rest[..2] == "m " then
      match ParseAmount(rest[2..], 's')
      case Some(x) => Some(MinSecs(n, x))
      case None => None
    else if |rest| >= 2 && rest[..2] == "h " then
      match ParseAmount(rest[2..], 'm')
      case Some(x) => Some(HoursMins(n, x))
      case None => None
    else None
  }

  lemma ParseAmountOfNumeral(n: nat, unit: char)
    requires !IsDigit(unit)
    ensures ParseAmount(NatToString(n) + [unit], unit) == Some(n)
  {
    ReadNumeral(n, [unit]);
  }

  /** A rendering that starts with a numeral is read as that number and the rest. */
  lemma ParseLeading(n: nat, rest: string)
    requires rest == [] || !IsDigit(rest[0])
    ensures ParseDuration(NatToString(n) + rest) == ParseUnits(n, rest)
  {
    ReadNumeral(n, rest);
  }

  lemma UnitsMinSecs(m: nat, x: nat)
    ensures ParseUnits(m, "m " + NatToString(x) + "s") == Some(MinSecs(m, x))
  {
    var tail := "m " + NatToString(x) + "s";
    assert tail[..2] == "m ";
    assert tail[2..] == NatToString(x) + ['s'];
    ParseAmountOfNumeral(x, 's');
  }

  lemma UnitsHoursMins(h: nat, m: nat)
    ensures ParseUnits(h, "h " + NatToString(m) + "m") == Some(HoursMins(h, m))
  {
    var tail := "h " + NatToString(m) + "m";
    assert tail[..2] == "h ";
    assert tail[2..] == NatToString(m) + ['m'];
    ParseAmountOfNumeral(m, 'm');
  }

  /** A minutes-and-seconds rendering reads back as those two numbers. */
  lemma ParseMinSecs(m: nat, x: nat)
    ensures ParseDuration(NatToString(m) + "m " + NatToString(x) + "s") == Some(MinSecs(m, x))
  {
    var tail := "m " + NatToString(x) + "s";
    assert NatToString(m) + "m " + NatToString(x) + "s" == NatToString(m) + tail;
    ParseLeading(m, tail);
    UnitsMinSecs(m, x);
  }

  /** An hours-and-minutes rendering reads back as those two numbers. */
  lemma ParseHoursMins(h: nat, m: nat)
    ensures ParseDuration(NatToString(h) + "h " + NatToString(m) + "m") == Some(HoursMins(h, m))
  {
    var tail := "h " + NatToString(m) + "m";
    assert NatToString(h) + "h " + NatToString(m) + "m" == NatToString(h) + tail;
    ParseLeading(h, tail);
    UnitsHoursMins(h, m);
  }

  /**
   * What the rendered duration means: under a minute only seconds; under an
   * hour whole minutes and the remaining seconds; otherwise whole hours and
   * the remaining whole minutes, with the seconds dropped. Every minutes and
   * seconds component shown is below 60.
   */
  lemma FormatDurationMeaning(seconds: nat)
    ensures match ParseDuration(FormatDuration(seconds))
            case Some(Secs(s)) => seconds < 60 && s == seconds
            case Some(MinSecs(m, s)) => 60 <= seconds < 3600 && 1 <= m < 60 && s < 60 && m * 60 + s == seconds
            case Some(HoursMins(h, m)) =>
              3600 <= seconds && 1 <= h && m < 60 && h * 3600 + m * 60 <= seconds < h * 3600 + m * 60 + 60
            case None => false
  {
    var t := FormatDuration(seconds);
    if seconds < 60 {
      ParseLeading(seconds, "s");
    } else if seconds < 3600 {
      ParseMinSecs(seconds / 60, seconds % 60);
    } else {
      ParseHoursMins(seconds / 3600, (seconds % 3600) / 60);
    }
  }

  // ---------------------------------------------------------------------------
  // Logging

  const Levels: seq<string> := ["error", "warn", "info", "debug"]

  /** `xs.indexOf(x)`: the first position of `x`, or -1. */
  function IndexOf(xs: seq<string>, x: string): (r: int)
    ensures -1 <= r < |xs|
    ensures r == -1 <==> x !in xs
    ensures 0 <= r ==> xs[r] == x && x !in xs[..r]
  {
    if xs == [] then -1
    else if xs[0] == x then 0
    else
      var j := IndexOf(xs[1..], x);
      if j == -1 then -1 else j + 1
  }

  /** The test `log` applies before it writes: debug mode on, and the level no more verbose than configured. */
  predicate ShouldLog(enabled: bool, configLevel: string, level: string)
  {
    enabled && IndexOf(Levels, level) <= IndexOf(Levels, configLevel)
  }

  /** With the shipped configuration (debug disabled) nothing is ever written. */
  lemma ShippedConfigLogsNothing(level: string)
    ensures !ShouldLog(DebugEnabled, LogLevel, level)
  {
  }

  /** A level outside the list has index -1 and always passes the test. */
  lemma UnknownLevelPassesTest(configLevel: string, level: string)
    requires level !in Levels
    ensures ShouldLog(true, configLevel, level)
  {
  }

  /** Between known levels the test is the order error < warn < info < debug. */
  lemma KnownLevelsOrdered(i: nat, j: nat)
    requires i < |Levels| && j < |Levels|
    ensures ShouldLog(true, Levels[j], Levels[i]) <==> i <= j
  {
    assert IndexOf(Levels, Levels[i]) == i;
    assert IndexOf(Levels, Levels[j]) == j;
  }

  /** Raising the configured level never silences a message that was written. */
  lemma LoggingMonotone(configLevel: string, configLevel': string, level: string)
    requires IndexOf(Levels, configLevel) <= IndexOf(Levels, configLevel')
    requires ShouldLog(true, configLevel, level)
    ensures ShouldLog(true, configLevel', level)
  {
  }
}
