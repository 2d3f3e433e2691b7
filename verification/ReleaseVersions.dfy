/** Versions and file names of a release (packaging/release/assemble.py). Digits are ASCII. */
module ReleaseVersions {
  import opened Common

  predicate IsDigit(c: char) {
    '0' <= c <= '9'
  }

  /** `0|[1-9]\d*` */
  predicate IsNumeral(s: string) {
    s != "" && (forall i | 0 <= i < |s| :: IsDigit(s[i])) && (s[0] == '0' ==> |s| == 1)
  }

  function NumeralValue(s: string): nat
    requires forall i | 0 <= i < |s| :: IsDigit(s[i])
  {
    if s == "" then 0
    else
      var last := s[|s| - 1];
      assert IsDigit(last);
      10 * NumeralValue(s[..|s| - 1]) + (last as int - '0' as int)
  }

  /** The part before the first dot. */
  function UpToDot(s: string): (r: string)
    ensures r <= s && '.' !in r && (|r| < |s| ==> s[|r|] == '.')
  {
    if s == "" || s[0] == '.' then "" else [s[0]] + UpToDot(s[1..])
  }

  datatype Version = Version(major: nat, minor: nat, patch: nat)

  /** `version_tuple` */
  function VersionTuple(s: string): Option<Version> {
    var major := UpToDot(s);
    if |major| == |s| then None
    else
      var rest := s[|major| + 1..];
      var minor := UpToDot(rest);
      if |minor| == |rest| then None
      else
        var patch := rest[|minor| + 1..];
        if IsNumeral(major) && IsNumeral(minor) && IsNumeral(patch) then
          Some(Version(NumeralValue(major), NumeralValue(minor), NumeralValue(patch)))
        else None
  }

  predicate Less(a: Version, b: Version) {
    || a.major < b.major
    || (a.major == b.major && a.minor < b.minor)
    || (a.major == b.major && a.minor == b.minor && a.patch < b.patch)
  }

  /** Versions are ordered by major, then minor, then patch number, any two of them. */
  lemma OrderIsTotal(a: Version, b: Version)
    ensures Less(a, b) <==> a != b && !Less(b, a)
    ensures Less(a, b) ==> a.major <= b.major && (a.major == b.major ==> a.minor <= b.minor)
  {
  }

  predicate VersionChar(c: char) {
    IsDigit(c) || c == '.'
  }

  // ---------------------------------------------------------------- one spelling for each version

  function Decimal(n: nat): string {
    if n < 10 then [(n + '0' as int) as char] else Decimal(n / 10) + [(n % 10 + '0' as int) as char]
  }

  lemma {:induction false} DecimalIsNumeral(n: nat)
    ensures IsNumeral(Decimal(n)) && NumeralValue(Decimal(n)) == n && (n > 0 ==> Decimal(n)[0] != '0')
  {
    var s := Decimal(n);
    if n < 10 {
      assert s[..0] == "";
    } else {
      DecimalIsNumeral(n / 10);
      assert s[..|s| - 1] == Decimal(n / 10);
    }
  }

  lemma {:induction false} NumeralIsDecimal(s: string)
    requires IsNumeral(s)
    ensures Decimal(NumeralValue(s)) == s && (NumeralValue(s) == 0 ==> s == "0")
  {
    var head, last := s[..|s| - 1], s[|s| - 1];
    assert IsDigit(last) && s == head + [last];
    if head == "" {
      assert NumeralValue("") == 0;
    } else {
      assert head[0] == s[0];
      NumeralIsDecimal(head);
    }
  }

  function Spelled(v: Version): string {
    Decimal(v.major) + "." + Decimal(v.minor) + "." + Decimal(v.patch)
  }

  lemma {:induction false} UpToDotConcat(a: string, b: string)
    requires '.' !in a
    ensures UpToDot(a + "." + b) == a
  {
    var s := a + "." + b;
    if a != "" {
      assert s[1..] == a[1..] + "." + b;
      UpToDotConcat(a[1..], b);
    }
  }

  lemma NoDot(s: string)
    requires IsNumeral(s)
    ensures '.' !in s && UpToDot(s) == s
  {
    assert forall i | 0 <= i < |s| :: IsDigit(s[i]);
  }

  lemma JoinedParses(a: string, b: string, c: string)
    requires IsNumeral(a) && IsNumeral(b) && IsNumeral(c)
    ensures VersionTuple(a + "." + (b + "." + c))
         == Some(Version(NumeralValue(a), NumeralValue(b), NumeralValue(c)))
  {
    NoDot(a);
    NoDot(b);
    var rest := b + "." + c;
    UpToDotConcat(a, rest);
    UpToDotConcat(b, c);
    assert (a + "." + rest)[|a| + 1..] == rest && rest[|b| + 1..] == c;
  }

  lemma JoinAgain(a: string, b: string, c: string)
    ensures a + "." + (b + "." + c) == a + "." + b + "." + c
  {
  }

  lemma SpelledParses(v: Version)
    ensures VersionTuple(Spelled(v)) == Some(v)
  {
    DecimalIsNumeral(v.major);
    DecimalIsNumeral(v.minor);
    DecimalIsNumeral(v.patch);
    JoinAgain(Decimal(v.major), Decimal(v.minor), Decimal(v.patch));
    JoinedParses(Decimal(v.major), Decimal(v.minor), Decimal(v.patch));
  }

  lemma PartsOf(s: string) returns (a: string, b: string, c: string)
    requires VersionTuple(s).Some?
    ensures IsNumeral(a) && IsNumeral(b) && IsNumeral(c) && s == a + "." + (b + "." + c)
    ensures VersionTuple(s) == Some(Version(NumeralValue(a), NumeralValue(b), NumeralValue(c)))
  {
    a := UpToDot(s);
    var rest := s[|a| + 1..];
    b := UpToDot(rest);
    c := rest[|b| + 1..];
    assert s == a + "." + rest && rest == b + "." + c;
  }

  predicate VersionText(s: string) {
    forall i | 0 <= i < |s| :: VersionChar(s[i])
  }

  lemma NumeralText(s: string)
    requires IsNumeral(s)
    ensures VersionText(s) && |s| >= 1
  {
  }

  lemma JoinedText(a: string, b: string)
    requires VersionText(a) && VersionText(b)
    ensures VersionText(a + "." + b)
  {
  }

  lemma VersionShape(s: string)
    requires VersionTuple(s).Some?
    ensures |s| >= 5 && forall i | 0 <= i < |s| :: VersionChar(s[i])
  {
    var a, b, c := PartsOf(s);
    NumeralText(a);
    NumeralText(b);
    NumeralText(c);
    JoinedText(b, c);
    JoinedText(a, b + "." + c);
  }

  lemma ParsedIsSpelled(s: string, v: Version)
    requires VersionTuple(s) == Some(v)
    ensures s == Spelled(v)
  {
    var a, b, c := PartsOf(s);
    NumeralIsDecimal(a);
    NumeralIsDecimal(b);
    NumeralIsDecimal(c);
    JoinAgain(a, b, c);
    assert a == Decimal(v.major) && b == Decimal(v.minor) && c == Decimal(v.patch);
  }

  /** A text is a version exactly if it is three decimal numbers without leading zeros, joined by dots. */
  lemma VersionIff(s: string, v: Version)
    ensures VersionTuple(s) == Some(v) <==> s == Spelled(v)
  {
    if VersionTuple(s) == Some(v) {
      ParsedIsSpelled(s, v);
    } else if s == Spelled(v) {
      SpelledParses(v);
    }
  }

  // ---------------------------------------------------------------- strings

  predicate EndsWith(s: string, suffix: string) {
    |suffix| <= |s| && s[|s| - |suffix|..] == suffix
  }

  predicate Contains(s: string, part: string) {
    exists i, j | 0 <= i <= j <= |s| :: s[i..j] == part
  }

  /** Only the tail decides how a name ends. */
  lemma EndOfConcat(head: string, tail: string, suffix: string)
    requires |suffix| <= |tail|
    ensures EndsWith(head + tail, suffix) <==> EndsWith(tail, suffix)
  {
    assert (head + tail)[|head + tail| - |suffix|..] == tail[|tail| - |suffix|..];
  }

  lemma ContainsMiddle(head: string, part: string, tail: string)
    ensures Contains(head + part + tail, part)
  {
    assert (head + part + tail)[|head|..|head| + |part|] == part;
  }

  // ---------------------------------------------------------------- file names

  function DebName(v: string): string { "vnidrop_" + v + "-1_amd64.deb" }
  function RpmName(v: string): string { "vnidrop-" + v + "-1.x86_64.rpm" }
  function DmgName(v: string): string { "VniDrop-" + v + ".dmg" }
  function IntelDmgName(v: string): string { "VniDrop-" + v + "-x86_64.dmg" }
  function CoreZipName(v: string): string { "VnidropCore-" + v + ".zip" }
  function ApkName(v: string, code: string): string { "VniDrop-" + v + ("-" + code + "-play-universal.apk") }
  function ExeName(v: string): string { "VniDrop_" + v + "_x64.exe" }

  /** The package names of one version, spelled out. */
  lemma NamesOfOne()
    ensures DebName("1.2.3") == "vnidrop_1.2.3-1_amd64.deb" && RpmName("1.2.3") == "vnidrop-1.2.3-1.x86_64.rpm"
    ensures DmgName("1.2.3") == "VniDrop-1.2.3.dmg" && IntelDmgName("1.2.3") == "VniDrop-1.2.3-x86_64.dmg"
  {
  }

  lemma OtherNamesOfOne()
    ensures CoreZipName("1.2.3") == "VnidropCore-1.2.3.zip" && ExeName("1.2.3") == "VniDrop_1.2.3_x64.exe"
    ensures ApkName("1.2.3", "45") == "VniDrop-1.2.3-45-play-universal.apk"
  {
  }

  const FEED := "appcast.xml"
  const INTEL_FEED := "appcast-x86_64.xml"
  const INTEL := "-x86_64.dmg"
  const APK := "-play-universal.apk"

  datatype Platform = Windows | Linux | Android | MacOS

  function Suffixes(p: Platform): seq<string> {
    match p
    case Windows => [".exe"]
    case Linux => [".deb", ".rpm"]
    case Android => [APK]
    case MacOS => [".dmg"]
  }

  /** `name.endswith(SUFFIXES[platform])` */
  predicate Belongs(name: string, p: Platform) {
    exists i | 0 <= i < |Suffixes(p)| :: EndsWith(name, Suffixes(p)[i])
  }

  /** The last four characters settle which suffixes a name can have. */
  lemma ExtensionDecides(name: string, ext: string, p: Platform)
    requires |ext| == 4 && EndsWith(name, ext)
    ensures ext == ".exe" ==> (Belongs(name, p) <==> p.Windows?)
    ensures ext == ".deb" || ext == ".rpm" ==> (Belongs(name, p) <==> p.Linux?)
    ensures ext == ".dmg" ==> (Belongs(name, p) <==> p.MacOS?)
    ensures ext == ".xml" || ext == ".zip" ==> !Belongs(name, p)
    ensures ext == ".apk" && !p.Android? ==> !Belongs(name, p)
  {
    var last := name[|name| - 4..];
    assert last == ext;
    assert EndsWith(name, APK) ==> last == APK[|APK| - 4..] by {
      if EndsWith(name, APK) {
        assert name[|name| - |APK|..][|APK| - 4..] == last;
      }
    }
    assert APK[|APK| - 4..] == ".apk";
    match p {
      case Windows => assert Suffixes(p)[0] == ".exe";
      case Linux => assert Suffixes(p)[0] == ".deb" && Suffixes(p)[1] == ".rpm";
      case Android => assert Suffixes(p)[0] == APK;
      case MacOS => assert Suffixes(p)[0] == ".dmg";
    }
    assert ".exe"[1] == 'e' && ".deb"[1] == 'd' && ".rpm"[1] == 'r' && ".dmg"[2] == 'm' && ".deb"[2] == 'e'
        && ".apk"[1] == 'a' && ".xml"[1] == 'x' && ".zip"[1] == 'z';
  }
}
