/** Normalising custom relay URLs (windows/VniDrop.Core/RelaySettingsPolicy.cs). */
module RelaySettings {
  import opened Common
  import opened ReleaseVersions

  /** What the platform knows of text: char.IsLetterOrDigit, IsWhiteSpace and IsControl, the invariant
      lower case, the UTF-8 length of a character, the case-insensitive match of the scheme and the
      address parser. */
  datatype Unicode = Unicode(
    isLetterOrDigit: char -> bool, isBlank: char -> bool, isControl: char -> bool, lower: char -> char,
    width: char -> nat, isHttps: string -> bool, isIpv6: string -> bool)

  predicate IsAscii(c: char) {
    c < 128 as char
  }

  function AsciiLower(c: char): char {
    if 'A' <= c <= 'Z' then c + 32 as char else c
  }

  /** Facts of that platform: on ASCII it is what one expects, and lower case keeps letters letters. */
  ghost predicate Sane(u: Unicode) {
    && (forall c | IsAscii(c) :: u.isLetterOrDigit(c) <==> IsDigit(c) || 'A' <= c <= 'Z' || 'a' <= c <= 'z')
    && (forall c | '!' <= c <= '~' :: !u.isBlank(c) && !u.isControl(c))
    && (forall c | IsAscii(c) :: u.lower(c) == AsciiLower(c) && u.width(c) == 1)
    && (forall c | u.isLetterOrDigit(c) :: !u.isBlank(c) && !u.isControl(c) && u.isLetterOrDigit(u.lower(c)))
    && (forall c :: u.lower(u.lower(c)) == u.lower(c) && u.width(c) >= 1)
    && u.isHttps(HTTPS) && forall s :: u.isIpv6(ToLower(s, u)) <==> u.isIpv6(s)
  }

  function ToLower(s: string, u: Unicode): (r: string)
    ensures |r| == |s| && forall i | 0 <= i < |s| :: r[i] == u.lower(s[i])
  {
    seq(|s|, i requires 0 <= i < |s| => u.lower(s[i]))
  }

  /** `Encoding.UTF8.GetByteCount` */
  function Bytes(s: string, u: Unicode): nat {
    if s == "" then 0 else u.width(s[0]) + Bytes(s[1..], u)
  }

  predicate IsHexDigit(c: char) {
    IsDigit(c) || 'A' <= c <= 'F' || 'a' <= c <= 'f'
  }

  /** The characters one by one. */
  lemma HexDigits(c: char)
    ensures IsHexDigit(c) <==> c in {'0', '1', '2', '3', '4', '5', '6', '7', '8', '9',
                                     'a', 'b', 'c', 'd', 'e', 'f', 'A', 'B', 'C', 'D', 'E', 'F'}
  {
  }

  lemma AsciiLowerLetters(c: char)
    ensures AsciiLower(c) != c <==> c in {'A', 'B', 'C', 'D', 'E', 'F', 'G', 'H', 'I', 'J', 'K', 'L', 'M',
                                          'N', 'O', 'P', 'Q', 'R', 'S', 'T', 'U', 'V', 'W', 'X', 'Y', 'Z'}
    ensures AsciiLower(c) != c ==> AsciiLower(c) as int == c as int + 32
  {
  }

  function {:tailrecursion false} IndexOf(s: string, c: char): (r: nat)
    ensures r <= |s| && (r < |s| ==> s[r] == c) && forall i | 0 <= i < r :: s[i] != c
  {
    if s == "" || s[0] == c then 0 else 1 + IndexOf(s[1..], c)
  }

  // ---------------------------------------------------------------- one URL

  const HTTPS := "https://"
  const MAXIMUM_URL_BYTES := 2048
  const MAXIMUM_URLS := 8

  predicate IsValidPortSuffix(suffix: string) {
    suffix == ""
    || (suffix[0] == ':' && |suffix| > 1 && (forall i | 1 <= i < |suffix| :: IsDigit(suffix[i]))
        && 1 <= PortNumber(suffix) <= 65535)
  }

  function PortNumber(suffix: string): nat
    requires |suffix| > 1 && forall i | 1 <= i < |suffix| :: IsDigit(suffix[i])
  {
    NumeralValue(suffix[1..])
  }

  function Zeros(n: nat): string {
    seq(n, _ => '0')
  }

  lemma {:induction false} ZerosValue(n: nat, s: string)
    requires forall i | 0 <= i < |s| :: IsDigit(s[i])
    ensures forall i | 0 <= i < |Zeros(n) + s| :: IsDigit((Zeros(n) + s)[i])
    ensures NumeralValue(Zeros(n) + s) == NumeralValue(s)
    decreases n + |s|
  {
    var t := Zeros(n) + s;
    if s != "" {
      ZerosValue(n, s[..|s| - 1]);
      assert t[..|t| - 1] == Zeros(n) + s[..|s| - 1];
    } else if n > 0 {
      ZerosValue(n - 1, "");
      assert t[..|t| - 1] == Zeros(n - 1) + "";
    }
  }

  /** Digits are zeros followed by a number, or zeros alone. */
  lemma {:induction false} DigitsSplit(s: string) returns (n: nat, rest: string)
    requires forall i | 0 <= i < |s| :: IsDigit(s[i])
    ensures s == Zeros(n) + rest && (rest != "" ==> rest[0] != '0' && IsNumeral(rest))
  {
    if s == "" || s[0] != '0' {
      n, rest := 0, s;
      assert Zeros(0) + s == s;
    } else {
      n, rest := DigitsSplit(s[1..]);
      assert ['0'] + Zeros(n) == Zeros(n + 1);
      assert s == ['0'] + s[1..];
      n := n + 1;
    }
  }

  ghost predicate IsPort(suffix: string, zeros: nat, n: nat) {
    1 <= n <= 65535 && suffix == ":" + Zeros(zeros) + Decimal(n)
  }

  /** A port suffix is valid exactly if it is empty, or a colon and a number from 1 to 65535, with any
      zeros before it. */
  lemma PortIff(suffix: string)
    ensures IsValidPortSuffix(suffix) <==> suffix == "" || exists zeros: nat, n: nat :: IsPort(suffix, zeros, n)
  {
    if IsValidPortSuffix(suffix) && suffix != "" {
      var digits := suffix[1..];
      var zeros, rest := DigitsSplit(digits);
      ZerosValue(zeros, "");
      ZerosValue(zeros, rest);
      assert rest == "" ==> digits == Zeros(zeros) + "";
      NumeralIsDecimal(rest);
      assert IsPort(suffix, zeros, NumeralValue(rest));
    }
    forall zeros: nat, n: nat | IsPort(suffix, zeros, n) ensures IsValidPortSuffix(suffix) {
      DecimalIsNumeral(n);
      ZerosValue(zeros, Decimal(n));
      assert suffix[1..] == Zeros(zeros) + Decimal(n);
      assert forall i | 1 <= i < |suffix| :: suffix[i] == suffix[1..][i - 1];
    }
  }

  datatype Authority = Authority(host: string, port: string)

  /** `[`address`]`port: the address in brackets and what follows. */
  function Bracketed(authority: string, u: Unicode): Option<Authority>
    requires authority != "" && authority[0] == '['
  {
    var closing := IndexOf(authority, ']');
    if closing <= 1 || closing == |authority| then None
    else
      var address, suffix := authority[1..closing], authority[closing + 1..];
      if (exists i | 0 <= i < |address| :: !IsHexDigit(address[i]) && address[i] != ':' && address[i] != '.')
         || !u.isIpv6(address) || !IsValidPortSuffix(suffix) then None
      else Some(Authority(authority[..closing + 1], suffix))
  }

  predicate HostOk(host: string, u: Unicode) {
    && host != "" && host[0] != '.' && host[|host| - 1] != '.' && host[0] != '-' && host[|host| - 1] != '-'
    && forall i | 0 <= i < |host| :: u.isLetterOrDigit(host[i]) || host[i] == '.' || host[i] == '-'
  }

  function Named(authority: string, u: Unicode): Option<Authority> {
    var separator := IndexOf(authority, ':');
    var host, port := authority[..separator], authority[separator..];
    if (port != "" && ':' in port[1..]) || !HostOk(host, u) || !IsValidPortSuffix(port) then None
    else Some(Authority(host, port))
  }

  /** `TryNormalizeAuthority` before lower-casing. */
  function Split(authority: string, u: Unicode): Option<Authority> {
    if authority == "" || '@' in authority then None
    else if authority[0] == '[' then Bracketed(authority, u)
    else Named(authority, u)
  }

  /** The authority of an acceptable URL. */
  function Accept(raw: string, u: Unicode): Option<Authority> {
    if |raw| < 8 || !u.isHttps(raw[..8]) || Bytes(raw, u) > MAXIMUM_URL_BYTES
       || (exists i | 0 <= i < |raw| :: u.isBlank(raw[i]) || u.isControl(raw[i])) then None
    else
      var remainder := raw[8..];
      if remainder == "" || '?' in remainder || '#' in remainder then None
      else
        var slash := IndexOf(remainder, '/');
        if slash < |remainder| - 1 then None else Split(remainder[..slash], u)
  }

  /** `TryNormalizeUrl` */
  function NormalizeUrl(raw: string, u: Unicode): Option<string> {
    var a :- Accept(raw, u);
    var authority := ToLower(a.host, u) + a.port;
    Some(HTTPS + if EndsWith(authority, ":443") then authority[..|authority| - 4] else authority)
  }

  // ---------------------------------------------------------------- normal forms

  /** What is left of a port: the default one is dropped. */
  function Stripped(port: string): string {
    if port == ":443" then "" else port
  }

  lemma IndexOfAt(s: string, c: char, n: nat)
    requires n < |s| && s[n] == c && forall i | 0 <= i < n :: s[i] != c
    ensures IndexOf(s, c) == n
  {
  }

  lemma IndexOfNone(s: string, c: char)
    requires c !in s
    ensures IndexOf(s, c) == |s|
  {
  }

  predicate PlainChar(c: char, u: Unicode) {
    u.isLetterOrDigit(c) || c in {'.', '-', ':', '[', ']'}
  }

  /** The two shapes an accepted authority has. */
  predicate IsShaped(a: Authority, u: Unicode) {
    && IsValidPortSuffix(a.port)
    && (HostOk(a.host, u)
        || (var n := |a.host| - 1;
            && n > 1 && a.host[0] == '[' && a.host[n] == ']' && u.isIpv6(a.host[1..n])
            && forall i | 1 <= i < n :: IsHexDigit(a.host[i]) || a.host[i] == ':' || a.host[i] == '.'))
  }

  lemma SplitShape(authority: string, u: Unicode)
    requires Split(authority, u).Some?
    ensures var a := Split(authority, u).value; IsShaped(a, u) && authority == a.host + a.port
  {
    if authority[0] == '[' {
      var closing := IndexOf(authority, ']');
      var address := authority[1..closing];
      assert authority[..closing + 1][1..closing] == address;
      forall i | 1 <= i < closing ensures IsHexDigit(authority[i]) || authority[i] == ':' || authority[i] == '.' {
        assert authority[i] == address[i - 1];
      }
    }
  }

  lemma NamedSplits(a: Authority, u: Unicode)
    requires Sane(u) && IsValidPortSuffix(a.port) && HostOk(a.host, u)
    ensures Named(a.host + a.port, u) == Some(a)
  {
    var authority, n := a.host + a.port, |a.host|;
    assert authority[..n] == a.host && authority[n..] == a.port;
    assert forall i | 0 <= i < n :: authority[i] == a.host[i];
    if a.port == "" {
      assert authority == a.host;
      IndexOfNone(authority, ':');
    } else {
      IndexOfAt(authority, ':', n);
    }
  }

  lemma BracketedSplits(a: Authority, u: Unicode)
    requires Sane(u) && IsShaped(a, u) && !HostOk(a.host, u)
    ensures a.host[0] == '[' && Bracketed(a.host + a.port, u) == Some(a)
  {
    var authority, n := a.host + a.port, |a.host|;
    assert authority[..n] == a.host && authority[n..] == a.port;
    assert forall i | 0 <= i < n :: authority[i] == a.host[i];
    IndexOfAt(authority, ']', n - 1);
    assert authority[1..n - 1] == a.host[1..n - 1];
  }

  lemma ShapedSplits(a: Authority, u: Unicode)
    requires Sane(u) && IsShaped(a, u)
    ensures Split(a.host + a.port, u) == Some(a)
  {
    assert '@' !in a.host && '@' !in a.port;
    if HostOk(a.host, u) {
      NamedSplits(a, u);
      assert a.host[0] != '[';
    } else {
      BracketedSplits(a, u);
    }
  }

  predicate AllPlain(s: string, u: Unicode) {
    forall i | 0 <= i < |s| :: PlainChar(s[i], u)
  }

  lemma PlainIsPrintable(c: char, u: Unicode)
    requires Sane(u) && PlainChar(c, u)
    ensures !u.isBlank(c) && !u.isControl(c) && c !in {'/', '?', '#', '@'}
  {
    assert u.isLetterOrDigit(c) && IsAscii(c) ==> c !in {'/', '?', '#', '@'};
  }

  lemma {:induction false} BytesConcat(s: string, t: string, u: Unicode)
    ensures Bytes(s + t, u) == Bytes(s, u) + Bytes(t, u)
  {
    if s == "" {
      assert s + t == t;
    } else {
      assert (s + t)[1..] == s[1..] + t;
      BytesConcat(s[1..], t, u);
    }
  }

  lemma {:induction false} AsciiBytes(s: string, u: Unicode)
    requires Sane(u) && forall i | 0 <= i < |s| :: IsAscii(s[i])
    ensures Bytes(s, u) == |s|
  {
    if s != "" {
      AsciiBytes(s[1..], u);
    }
  }

  lemma HttpsBytes(authority: string, u: Unicode)
    requires Sane(u)
    ensures Bytes(HTTPS + authority, u) == 8 + Bytes(authority, u)
  {
    AsciiBytes(HTTPS, u);
    BytesConcat(HTTPS, authority, u);
  }

  lemma PlainRaw(authority: string, u: Unicode)
    requires Sane(u) && AllPlain(authority, u)
    ensures forall i | 0 <= i < |HTTPS + authority| ::
      !u.isBlank((HTTPS + authority)[i]) && !u.isControl((HTTPS + authority)[i])
    ensures '/' !in authority && '?' !in authority && '#' !in authority
  {
    forall i | 0 <= i < |authority|
      ensures !u.isBlank(authority[i]) && !u.isControl(authority[i]) && authority[i] !in {'/', '?', '#'}
    {
      PlainIsPrintable(authority[i], u);
    }
    assert forall i | 0 <= i < 8 :: '!' <= HTTPS[i] <= '~';
    assert forall i | 8 <= i < |HTTPS + authority| :: (HTTPS + authority)[i] == authority[i - 8];
  }

  /** A lower-case scheme before plain characters leaves only the length and the authority to check. */
  lemma PlainAccepted(authority: string, u: Unicode)
    requires Sane(u) && AllPlain(authority, u) && authority != ""
    ensures Accept(HTTPS + authority, u)
      == if Bytes(HTTPS + authority, u) <= MAXIMUM_URL_BYTES then Split(authority, u) else None
  {
    var raw := HTTPS + authority;
    PlainRaw(authority, u);
    assert raw[..8] == HTTPS && raw[8..] == authority;
    IndexOfNone(authority, '/');
    assert authority[..|authority|] == authority;
  }

  lemma ShapedPlain(a: Authority, u: Unicode)
    requires Sane(u) && IsShaped(a, u)
    ensures AllPlain(a.host + a.port, u)
  {
    assert forall c | IsDigit(c) || IsHexDigit(c) :: u.isLetterOrDigit(c);
  }

  lemma ShapedAccepted(a: Authority, u: Unicode)
    requires Sane(u) && IsShaped(a, u)
    ensures Accept(HTTPS + (a.host + a.port), u)
      == if Bytes(HTTPS + (a.host + a.port), u) <= MAXIMUM_URL_BYTES then Some(a) else None
  {
    ShapedPlain(a, u);
    PlainAccepted(a.host + a.port, u);
    ShapedSplits(a, u);
  }

  lemma LowerShaped(a: Authority, u: Unicode)
    requires Sane(u) && IsShaped(a, u)
    ensures IsShaped(Authority(ToLower(a.host, u), Stripped(a.port)), u)
  {
    var n := |a.host| - 1;
    if !HostOk(a.host, u) {
      assert ToLower(a.host, u)[1..n] == ToLower(a.host[1..n], u);
    }
  }

  /** A host with a colon ends in a bracket. */
  lemma HostEnd(a: Authority, u: Unicode, k: nat)
    requires Sane(u) && IsShaped(a, u) && k < |a.host|
    ensures ToLower(a.host, u)[k] == ':' ==> ToLower(a.host, u)[|a.host| - 1] == ']'
  {
    var c := a.host[k];
    assert u.isLetterOrDigit(c) ==> u.isLetterOrDigit(u.lower(c)) && !u.isLetterOrDigit(':');
  }

  lemma PortAtEnd(host: string, port: string)
    requires forall k | 0 <= k < |host| :: host[k] == ':' ==> host[|host| - 1] == ']'
    requires port == "" || (port[0] == ':' && forall i | 1 <= i < |port| :: IsDigit(port[i]))
    ensures EndsWith(host + port, ":443") <==> port == ":443"
  {
    var all, n := host + port, |host| + |port| - 4;
    assert port == ":443" ==> all[n..] == port;
    assert forall i | 0 <= i < |host| :: all[i] == host[i];
    if EndsWith(all, ":443") {
      var tail := all[n..];
      assert tail[0] == ':' && tail[1] == '4' && tail[2] == '4' && tail[3] == '3';
      assert all[n] == tail[0] && all[n + 1] == tail[1] && all[n + 2] == tail[2] && all[n + 3] == tail[3];
      if n < |host| {
        assert false;
      }
      assert port[n - |host|] == ':';
      assert port == tail;
    }
  }

  /** Dropping a trailing `:443` drops the port and never a part of the host. */
  lemma StripsThePort(a: Authority, u: Unicode)
    requires Sane(u) && IsShaped(a, u)
    ensures EndsWith(ToLower(a.host, u) + a.port, ":443") <==> a.port == ":443"
  {
    var host := ToLower(a.host, u);
    forall k | 0 <= k < |host| ensures host[k] == ':' ==> host[|host| - 1] == ']' {
      HostEnd(a, u, k);
    }
    PortAtEnd(host, a.port);
  }

  /** What an accepted URL is normalised to: its lower-case host with its port, unless that is 443. */
  function Canonical(a: Authority, u: Unicode): Authority {
    Authority(ToLower(a.host, u), Stripped(a.port))
  }

  /** The normal form says just that, and is itself accepted, as long as it is not too long. */
  lemma NormalForm(raw: string, u: Unicode)
    requires Sane(u) && Accept(raw, u).Some?
    ensures var b := Canonical(Accept(raw, u).value, u);
      && NormalizeUrl(raw, u) == Some(HTTPS + (b.host + b.port))
      && Split(b.host + b.port, u) == Some(b)
      && Accept(HTTPS + (b.host + b.port), u)
         == if Bytes(HTTPS + (b.host + b.port), u) <= MAXIMUM_URL_BYTES then Some(b) else None
  {
    var a := Accept(raw, u).value;
    var remainder := raw[8..];
    SplitShape(remainder[..IndexOf(remainder, '/')], u);
    StripsThePort(a, u);
    LowerShaped(a, u);
    var host := ToLower(a.host, u);
    assert a.port == ":443" ==> (host + a.port)[..|host + a.port| - 4] == host + "";
    ShapedSplits(Canonical(a, u), u);
    ShapedAccepted(Canonical(a, u), u);
  }

  /** A host name begins and ends with a letter or digit. */
  predicate IsHostName(host: string, u: Unicode) {
    && host != "" && u.isLetterOrDigit(host[0]) && u.isLetterOrDigit(host[|host| - 1])
    && forall i | 0 <= i < |host| :: u.isLetterOrDigit(host[i]) || host[i] == '.' || host[i] == '-'
  }

  predicate IsBracketedAddress(host: string, u: Unicode) {
    var n := |host| - 1;
    && n > 1 && host[0] == '[' && host[n] == ']' && u.isIpv6(host[1..n])
    && forall i | 1 <= i < n :: IsHexDigit(host[i]) || host[i] == ':' || host[i] == '.'
  }

  lemma ShapedIff(a: Authority, u: Unicode)
    requires Sane(u)
    ensures IsShaped(a, u) <==>
      IsValidPortSuffix(a.port) && (IsHostName(a.host, u) || IsBracketedAddress(a.host, u))
  {
    assert !u.isLetterOrDigit('.') && !u.isLetterOrDigit('-');
  }

  lemma AcceptedSplits(raw: string, u: Unicode)
    requires Accept(raw, u).Some?
    ensures var a := Accept(raw, u).value;
      IsShaped(a, u) && (raw[8..] == a.host + a.port || raw[8..] == a.host + a.port + "/")
  {
    var remainder := raw[8..];
    var slash := IndexOf(remainder, '/');
    SplitShape(remainder[..slash], u);
    assert remainder == remainder[..slash] + remainder[slash..];
    assert slash < |remainder| ==> remainder[slash..] == "/";
  }

  lemma SplitsAccepted(raw: string, a: Authority, u: Unicode)
    requires Sane(u) && IsShaped(a, u) && |raw| >= 8 && u.isHttps(raw[..8]) && Bytes(raw, u) <= MAXIMUM_URL_BYTES
    requires forall i | 0 <= i < |raw| :: !u.isBlank(raw[i]) && !u.isControl(raw[i])
    requires raw[8..] == a.host + a.port || raw[8..] == a.host + a.port + "/"
    ensures Accept(raw, u) == Some(a)
  {
    var remainder: string, authority: string := raw[8..], a.host + a.port;
    ShapedPlain(a, u);
    PlainRaw(authority, u);
    SlashFollows(remainder, authority);
    ShapedSplits(a, u);
  }

  lemma SlashFollows(remainder: string, authority: string)
    requires '/' !in authority && '?' !in authority && '#' !in authority && authority != ""
    requires remainder == authority || remainder == authority + "/"
    ensures IndexOf(remainder, '/') == |authority| >= |remainder| - 1 && remainder[..|authority|] == authority
    ensures remainder != "" && '?' !in remainder && '#' !in remainder
  {
    if remainder == authority {
      IndexOfNone(remainder, '/');
    } else {
      assert forall i | 0 <= i < |authority| :: remainder[i] == authority[i];
      IndexOfAt(remainder, '/', |authority|);
    }
  }

  /** A URL is accepted with a host and a port exactly if it is these two after `https://` in any case,
      with at most one slash behind, fits 2048 bytes and has no blank or control character; the host is a
      name or an IPv6 address in brackets. */
  lemma AcceptIff(raw: string, a: Authority, u: Unicode)
    requires Sane(u)
    ensures Accept(raw, u) == Some(a) <==>
      && |raw| >= 8 && u.isHttps(raw[..8]) && Bytes(raw, u) <= 2048
      && (forall i | 0 <= i < |raw| :: !u.isBlank(raw[i]) && !u.isControl(raw[i]))
      && (raw[8..] == a.host + a.port || raw[8..] == a.host + a.port + "/")
      && (IsHostName(a.host, u) || IsBracketedAddress(a.host, u)) && IsValidPortSuffix(a.port)
  {
    ShapedIff(a, u);
    if Accept(raw, u) == Some(a) {
      AcceptedSplits(raw, u);
    } else if |raw| >= 8 && u.isHttps(raw[..8]) && Bytes(raw, u) <= 2048 && IsShaped(a, u)
      && (forall i | 0 <= i < |raw| :: !u.isBlank(raw[i]) && !u.isControl(raw[i]))
      && (raw[8..] == a.host + a.port || raw[8..] == a.host + a.port + "/") {
      SplitsAccepted(raw, a, u);
    }
  }

  lemma CanonicalTwice(a: Authority, u: Unicode)
    requires Sane(u)
    ensures Canonical(Canonical(a, u), u) == Canonical(a, u)
  {
    assert ToLower(ToLower(a.host, u), u) == ToLower(a.host, u);
  }

  /** Normalising a normal form changes nothing, unless lower case made it too long to be accepted. */
  lemma NormalizedIsFixed(raw: string, u: Unicode)
    requires Sane(u) && NormalizeUrl(raw, u).Some?
    ensures var v := NormalizeUrl(raw, u).value;
      NormalizeUrl(v, u) == if Bytes(v, u) <= MAXIMUM_URL_BYTES then Some(v) else None
  {
    NormalForm(raw, u);
    var v := NormalizeUrl(raw, u).value;
    if Bytes(v, u) <= MAXIMUM_URL_BYTES {
      NormalForm(v, u);
      CanonicalTwice(Accept(raw, u).value, u);
    }
  }

  /** Two accepted URLs have one normal form exactly if they name one host, up to case, and one
      port text, 443 being the same as none. */
  lemma SameNormalForm(x: string, y: string, u: Unicode)
    requires Sane(u) && Accept(x, u).Some? && Accept(y, u).Some?
    ensures var a, b := Accept(x, u).value, Accept(y, u).value;
      NormalizeUrl(x, u) == NormalizeUrl(y, u) <==>
        ToLower(a.host, u) == ToLower(b.host, u) && Stripped(a.port) == Stripped(b.port)
  {
    NormalForm(x, u);
    NormalForm(y, u);
    var a, b := Canonical(Accept(x, u).value, u), Canonical(Accept(y, u).value, u);
    if HTTPS + (a.host + a.port) == HTTPS + (b.host + b.port) {
      assert (HTTPS + (a.host + a.port))[8..] == a.host + a.port;
      assert (HTTPS + (b.host + b.port))[8..] == b.host + b.port;
    }
  }

  // ---------------------------------------------------------------- how long a normal form is

  lemma {:induction false} LowerBytes(s: string, u: Unicode)
    requires forall i | 0 <= i < |s| :: u.width(u.lower(s[i])) <= u.width(s[i])
    ensures Bytes(ToLower(s, u), u) <= Bytes(s, u)
  {
    if s != "" {
      assert ToLower(s, u)[1..] == ToLower(s[1..], u);
      LowerBytes(s[1..], u);
    }
  }

  lemma {:induction false} BytesAtLeast(s: string, u: Unicode)
    requires Sane(u)
    ensures Bytes(s, u) >= |s|
  {
    if s != "" {
      BytesAtLeast(s[1..], u);
    }
  }

  lemma AuthorityBytes(raw: string, u: Unicode)
    requires Sane(u) && Accept(raw, u).Some?
    ensures var a := Accept(raw, u).value; 8 + Bytes(a.host, u) + Bytes(a.port, u) <= Bytes(raw, u)
    ensures forall c | c in Accept(raw, u).value.host :: c in raw
  {
    var a := Accept(raw, u).value;
    var remainder := raw[8..];
    var slash := IndexOf(remainder, '/');
    SplitShape(remainder[..slash], u);
    assert raw == raw[..8] + remainder && remainder == remainder[..slash] + remainder[slash..];
    BytesConcat(raw[..8], remainder, u);
    BytesConcat(remainder[..slash], remainder[slash..], u);
    BytesConcat(a.host, a.port, u);
    BytesAtLeast(raw[..8], u);
  }

  lemma CanonicalBytes(a: Authority, u: Unicode)
    requires forall c | c in a.host :: u.width(u.lower(c)) <= u.width(c)
    ensures var b := Canonical(a, u); Bytes(b.host + b.port, u) <= Bytes(a.host, u) + Bytes(a.port, u)
  {
    var b := Canonical(a, u);
    LowerBytes(a.host, u);
    BytesConcat(b.host, b.port, u);
  }

  /** Where lower case takes no more bytes, as on ASCII, a normal form is no longer than its URL, and so
      accepted again. */
  lemma NormalFormFits(raw: string, u: Unicode)
    requires Sane(u) && NormalizeUrl(raw, u).Some? && forall c | c in raw :: u.width(u.lower(c)) <= u.width(c)
    ensures Bytes(NormalizeUrl(raw, u).value, u) <= Bytes(raw, u) <= MAXIMUM_URL_BYTES
  {
    NormalForm(raw, u);
    AuthorityBytes(raw, u);
    CanonicalBytes(Accept(raw, u).value, u);
    var b := Canonical(Accept(raw, u).value, u);
    HttpsBytes(b.host + b.port, u);
  }

  lemma {:induction false} RepeatedBytes(s: string, c: char, u: Unicode)
    requires forall i | 0 <= i < |s| :: s[i] == c
    ensures Bytes(s, u) == |s| * u.width(c)
  {
    if s != "" {
      RepeatedBytes(s[1..], c, u);
    }
  }

  /** Where it takes more it may not be: 1020 letters of two bytes whose lower case takes three are
      accepted, and their normal form is refused. */
  lemma LowerCaseGrows(c: char, u: Unicode)
    requires Sane(u) && u.isLetterOrDigit(c) && u.width(c) == 2 && u.width(u.lower(c)) == 3
    ensures var raw := HTTPS + seq(1020, _ => c);
      NormalizeUrl(raw, u).Some? && NormalizeUrl(NormalizeUrl(raw, u).value, u).None?
  {
    var host: string := seq(1020, _ => c);
    RepeatedBytes(host, c, u);
    HttpsBytes(host, u);
    assert host + "" == host && c != '.' && c != '-';
    ShapedAccepted(Authority(host, ""), u);
    NormalForm(HTTPS + host, u);
    var v := ToLower(host, u);
    assert v + "" == v;
    RepeatedBytes(v, u.lower(c), u);
    HttpsBytes(v, u);
    NormalizedIsFixed(HTTPS + host, u);
  }

  // ---------------------------------------------------------------- an instance

  const WIDE_UPPER: char := '\U{23A}'   // two bytes in UTF-8
  const WIDE_LOWER: char := '\U{2C65}'  // three bytes, and the lower case of the former

  predicate SomeLetterOrDigit(c: char) {
    IsDigit(c) || 'A' <= c <= 'Z' || 'a' <= c <= 'z' || c == WIDE_UPPER || c == WIDE_LOWER
  }

  function SomeLower(c: char): char {
    if c == WIDE_UPPER then WIDE_LOWER else AsciiLower(c)
  }

  function Utf8Width(c: char): nat {
    if c < 128 as char then 1 else if c < 0x800 as char then 2 else if c < 0x10000 as char then 3 else 4
  }

  predicate IsLoopback(s: string) {
    s == "::1"
  }

  /** ASCII and one more letter in both cases. */
  const SMALL := Unicode(
    SomeLetterOrDigit, c => c == ' ' || '\t' <= c <= '\r', c => c < ' ' || c == 127 as char, SomeLower, Utf8Width,
    s => s == HTTPS, IsLoopback)

  lemma LoopbackIgnoresCase(s: string, t: string)
    requires |s| == |t| && forall i | 0 <= i < |s| :: t[i] == SomeLower(s[i])
    ensures IsLoopback(t) <==> IsLoopback(s)
  {
    if |s| == 3 {
      assert s == [s[0], s[1], s[2]] && t == [t[0], t[1], t[2]];
    }
  }

  lemma SmallIsSane()
    ensures Sane(SMALL)
  {
    forall s: string ensures SMALL.isIpv6(ToLower(s, SMALL)) <==> SMALL.isIpv6(s) {
      LoopbackIgnoresCase(s, ToLower(s, SMALL));
    }
  }

  /** The normal form of an accepted URL is refused: 1020 times U+023A as the host. */
  lemma WideHostIsRefusedAgain()
    ensures Sane(SMALL)
    ensures var raw := HTTPS + seq(1020, _ => WIDE_UPPER);
      NormalizeUrl(raw, SMALL).Some? && NormalizeUrl(NormalizeUrl(raw, SMALL).value, SMALL).None?
  {
    SmallIsSane();
    LowerCaseGrows(WIDE_UPPER, SMALL);
  }

  // ---------------------------------------------------------------- spellings of one relay

  /** The relay a URL names: its host, up to case, and its port number. */
  ghost function Endpoint(a: Authority, u: Unicode): (string, nat)
    requires IsValidPortSuffix(a.port)
  {
    (ToLower(a.host, u), if a.port == "" then 443 else PortNumber(a.port))
  }

  predicate NoLeadingZero(port: string) {
    |port| > 1 ==> port[1] != '0'
  }

  lemma {:induction false} NumeralPositive(s: string)
    requires s != "" && s[0] != '0' && forall i | 0 <= i < |s| :: IsDigit(s[i])
    ensures NumeralValue(s) > 0
  {
    if |s| > 1 {
      NumeralPositive(s[..|s| - 1]);
    }
  }

  lemma {:induction false} NumeralUnique(s: string, t: string)
    requires (forall i | 0 <= i < |s| :: IsDigit(s[i])) && forall i | 0 <= i < |t| :: IsDigit(t[i])
    requires (s != "" ==> s[0] != '0') && (t != "" ==> t[0] != '0') && NumeralValue(s) == NumeralValue(t)
    ensures s == t
  {
    if s != "" { NumeralPositive(s); }
    if t != "" { NumeralPositive(t); }
    if s != "" && t != "" {
      var n, m := |s| - 1, |t| - 1;
      assert IsDigit(s[n]) && IsDigit(t[m]);
      NumeralUnique(s[..n], t[..m]);
      assert s == s[..n] + [s[n]] && t == t[..m] + [t[m]];
    }
  }

  /** Of port texts without leading zeros the stripped one tells the number. */
  lemma StrippedTellsPort(p: string, q: string)
    requires IsValidPortSuffix(p) && IsValidPortSuffix(q) && NoLeadingZero(p) && NoLeadingZero(q)
    ensures Stripped(p) == Stripped(q) <==>
      (if p == "" then 443 else PortNumber(p)) == (if q == "" then 443 else PortNumber(q))
  {
    assert NumeralValue("443") == 443 by {
      assert "443"[..2] == "44" && "44"[..1] == "4";
      assert NumeralValue("4") == 4;
      assert NumeralValue("44") == 44;
    }
    assert ":443"[1..] == "443";
    var x, y := if p == "" then "443" else p[1..], if q == "" then "443" else q[1..];
    if NumeralValue(x) == NumeralValue(y) {
      NumeralUnique(x, y);
    }
    assert p != "" ==> p == ":" + p[1..];
    assert q != "" ==> q == ":" + q[1..];
  }

  /** One relay, one normal form, as long as no port has a leading zero. */
  lemma SameRelay(x: string, y: string, u: Unicode)
    requires Sane(u) && Accept(x, u).Some? && Accept(y, u).Some?
    requires NoLeadingZero(Accept(x, u).value.port) && NoLeadingZero(Accept(y, u).value.port)
    ensures IsValidPortSuffix(Accept(x, u).value.port) && IsValidPortSuffix(Accept(y, u).value.port)
    ensures NormalizeUrl(x, u) == NormalizeUrl(y, u) <==>
      Endpoint(Accept(x, u).value, u) == Endpoint(Accept(y, u).value, u)
  {
    SameNormalForm(x, y, u);
    StrippedTellsPort(Accept(x, u).value.port, Accept(y, u).value.port);
  }

  lemma PortSpellings()
    ensures IsValidPortSuffix(":8443") && IsValidPortSuffix(":08443")
    ensures PortNumber(":8443") == PortNumber(":08443") == 8443
  {
    assert ":8443"[1..] == "8443" && ":08443"[1..] == "08443";
    assert "8443"[..3] == "844" && "844"[..2] == "84" && "84"[..1] == "8";
    assert "08443"[..4] == "0844" && "0844"[..3] == "084" && "084"[..2] == "08" && "08"[..1] == "0";
    assert NumeralValue("8") == 8 && NumeralValue("0") == 0;
    assert NumeralValue("84") == 84 && NumeralValue("08") == 8;
    assert NumeralValue("844") == 844 && NumeralValue("084") == 84;
    assert NumeralValue("8443") == 8443 && NumeralValue("0844") == 844;
    assert NumeralValue("08443") == 8443;
  }

  /** With one, a relay has several. */
  lemma LeadingZeroPort(host: string, u: Unicode)
    requires Sane(u) && HostOk(host, u) && Bytes(host, u) < 1000
    ensures var x, y := HTTPS + (host + ":8443"), HTTPS + (host + ":08443");
      && Accept(x, u) == Some(Authority(host, ":8443")) && Accept(y, u) == Some(Authority(host, ":08443"))
      && NormalizeUrl(x, u) != NormalizeUrl(y, u)
  {
    PortSpellings();
    AsciiBytes(":8443", u);
    AsciiBytes(":08443", u);
    BytesConcat(host, ":8443", u);
    BytesConcat(host, ":08443", u);
    HttpsBytes(host + ":8443", u);
    HttpsBytes(host + ":08443", u);
    ShapedAccepted(Authority(host, ":8443"), u);
    ShapedAccepted(Authority(host, ":08443"), u);
    SameNormalForm(HTTPS + (host + ":8443"), HTTPS + (host + ":08443"), u);
  }

  // ---------------------------------------------------------------- the list

  function TrimStart(s: string, u: Unicode): (r: string)
    ensures r == "" || !u.isBlank(r[0])
  {
    if s != "" && u.isBlank(s[0]) then TrimStart(s[1..], u) else s
  }

  function TrimEnd(s: string, u: Unicode): string {
    if s != "" && u.isBlank(s[|s| - 1]) then TrimEnd(s[..|s| - 1], u) else s
  }

  function Trim(s: string, u: Unicode): string {
    TrimEnd(TrimStart(s, u), u)
  }

  predicate AllBlank(s: string, u: Unicode) {
    forall i | 0 <= i < |s| :: u.isBlank(s[i])
  }

  lemma {:induction false} TrimStartSplits(s: string, u: Unicode) returns (lead: string)
    ensures s == lead + TrimStart(s, u) && AllBlank(lead, u)
  {
    if s != "" && u.isBlank(s[0]) {
      var rest := TrimStartSplits(s[1..], u);
      lead := [s[0]] + rest;
    } else {
      lead := "";
    }
  }

  lemma {:induction false} TrimEndSplits(s: string, u: Unicode) returns (trail: string)
    ensures s == TrimEnd(s, u) + trail && AllBlank(trail, u)
    ensures var r := TrimEnd(s, u); r == "" || !u.isBlank(r[|r| - 1])
  {
    if s != "" && u.isBlank(s[|s| - 1]) {
      var rest := TrimEndSplits(s[..|s| - 1], u);
      trail := rest + [s[|s| - 1]];
    } else {
      trail := "";
    }
  }

  /** Trimming takes blanks off both ends, as many as there are. */
  lemma TrimSplits(s: string, u: Unicode) returns (lead: string, trail: string)
    ensures s == lead + Trim(s, u) + trail && AllBlank(lead, u) && AllBlank(trail, u)
    ensures var r := Trim(s, u); r == "" || (!u.isBlank(r[0]) && !u.isBlank(r[|r| - 1]))
  {
    lead := TrimStartSplits(s, u);
    trail := TrimEndSplits(TrimStart(s, u), u);
    assert Trim(s, u) != "" ==> Trim(s, u)[0] == TrimStart(s, u)[0];
  }

  /** The entries with anything in them, trimmed. */
  function Entered(urls: seq<string>, u: Unicode): seq<string> {
    if urls == [] then []
    else
      var url := Trim(urls[0], u);
      (if url == "" then [] else [url]) + Entered(urls[1..], u)
  }

  lemma {:induction false} EnteredConcat(a: seq<string>, b: seq<string>, u: Unicode)
    ensures Entered(a + b, u) == Entered(a, u) + Entered(b, u)
  {
    if a == [] {
      assert a + b == b;
    } else {
      assert (a + b)[1..] == a[1..] + b;
      EnteredConcat(a[1..], b, u);
    }
  }

  /** What is entered are the trimmed entries in order, without the blank ones. */
  lemma EnteredIs(a: seq<string>, url: string, b: seq<string>, u: Unicode)
    ensures Entered(a + [url] + b, u)
         == Entered(a, u) + (if Trim(url, u) == "" then [] else [Trim(url, u)]) + Entered(b, u)
    ensures Entered([], u) == []
  {
    EnteredConcat(a + [url], b, u);
    EnteredConcat(a, [url], u);
    assert [url][1..] == [];
  }

  /** `normalized` lists the normal forms of one to eight URLs, no two alike. */
  ghost predicate IsNormalization(urls: seq<string>, normalized: seq<string>, u: Unicode) {
    1 <= |urls| <= MAXIMUM_URLS && AreNormalized(urls, normalized, u)
  }

  /** The normal forms of the URLs, no two alike. */
  ghost predicate AreNormalized(urls: seq<string>, normalized: seq<string>, u: Unicode) {
    && |normalized| == |urls|
    && (forall i | 0 <= i < |urls| :: NormalizeUrl(urls[i], u) == Some(normalized[i]))
    && forall i, j | 0 <= i < j < |urls| :: normalized[i] != normalized[j]
  }

  lemma OneMore(urls: seq<string>, normalized: seq<string>, url: string, value: string, u: Unicode)
    requires AreNormalized(urls, normalized, u) && NormalizeUrl(url, u) == Some(value) && value !in normalized
    ensures AreNormalized(urls + [url], normalized + [value], u)
  {
  }

  lemma NormalizationDistinguishes(urls: seq<string>, ns: seq<string>, j: nat, k: nat, u: Unicode)
    requires j < k < |urls|
    ensures IsNormalization(urls, ns, u) ==> NormalizeUrl(urls[j], u) != NormalizeUrl(urls[k], u)
  {
  }

  lemma TwiceRefused(urls: seq<string>, k: nat, normalized: seq<string>, u: Unicode)
    requires k < |urls| && AreNormalized(urls[..k], normalized, u)
    requires NormalizeUrl(urls[k], u).Some? && NormalizeUrl(urls[k], u).value in normalized
    ensures forall ns :: !IsNormalization(urls, ns, u)
  {
    var j: nat :| j < k && normalized[j] == NormalizeUrl(urls[k], u).value;
    assert urls[..k][j] == urls[j];
    forall ns ensures !IsNormalization(urls, ns, u) {
      NormalizationDistinguishes(urls, ns, j, k, u);
    }
  }

  lemma BadRefused(urls: seq<string>, k: nat, u: Unicode)
    requires k < |urls| && NormalizeUrl(urls[k], u).None?
    ensures forall ns :: !IsNormalization(urls, ns, u)
  {
  }

  /** `TryNormalize`; modes without custom URLs keep the retained ones. */
  method TryNormalize(custom: bool, relayUrls: seq<string>, retained: seq<string>, u: Unicode)
    returns (ok: bool, normalized: seq<string>)
    ensures !custom ==> ok && normalized == retained
    ensures custom && ok ==> IsNormalization(Entered(relayUrls, u), normalized, u) && 1 <= |normalized| <= 8
    ensures !ok ==> normalized == [] && forall ns :: !IsNormalization(Entered(relayUrls, u), ns, u)
  {
    if !custom {
      return true, retained;
    }
    var urls := Entered(relayUrls, u);
    if |urls| == 0 || |urls| > MAXIMUM_URLS {
      return false, [];
    }
    normalized := [];
    var unique: set<string> := {};
    for i := 0 to |urls|
      invariant AreNormalized(urls[..i], normalized, u)
      invariant forall v :: v in unique <==> v in normalized
    {
      var value := NormalizeUrl(urls[i], u);
      if value.None? {
        BadRefused(urls, i, u);
        return false, [];
      }
      if value.value in unique {
        TwiceRefused(urls, i, normalized, u);
        return false, [];
      }
      OneMore(urls[..i], normalized, urls[i], value.value, u);
      assert urls[..i + 1] == urls[..i] + [urls[i]];
      normalized, unique := normalized + [value.value], unique + {value.value};
    }
    assert urls[..|urls|] == urls;
    return true, normalized;
  }

  /** Trimming leaves it as it is. */
  predicate IsEntered(s: string, u: Unicode) {
    s != "" && forall k | 0 <= k < |s| :: !u.isBlank(s[k])
  }

  predicate FixedIfShort(v: string, u: Unicode) {
    NormalizeUrl(v, u) == if Bytes(v, u) <= MAXIMUM_URL_BYTES then Some(v) else None
  }

  lemma {:induction false} EnteredPlain(urls: seq<string>, u: Unicode)
    requires forall i | 0 <= i < |urls| :: IsEntered(urls[i], u)
    ensures Entered(urls, u) == urls
  {
    if urls != [] {
      EnteredPlain(urls[1..], u);
    }
  }

  lemma NormalFormIsEntered(raw: string, u: Unicode)
    requires Sane(u) && NormalizeUrl(raw, u).Some?
    ensures IsEntered(NormalizeUrl(raw, u).value, u)
  {
    NormalForm(raw, u);
    var remainder := raw[8..];
    SplitShape(remainder[..IndexOf(remainder, '/')], u);
    LowerShaped(Accept(raw, u).value, u);
    var b := Canonical(Accept(raw, u).value, u);
    ShapedPlain(b, u);
    PlainRaw(b.host + b.port, u);
  }

  lemma NormalizedEntry(urls: seq<string>, normalized: seq<string>, i: nat, u: Unicode)
    requires Sane(u) && IsNormalization(urls, normalized, u) && i < |normalized|
    ensures IsEntered(normalized[i], u) && FixedIfShort(normalized[i], u)
  {
    assert NormalizeUrl(urls[i], u) == Some(normalized[i]);
    NormalizedIsFixed(urls[i], u);
    NormalFormIsEntered(urls[i], u);
  }

  lemma SelfNormalization(ns: seq<string>, u: Unicode)
    requires 1 <= |ns| <= MAXIMUM_URLS && forall i, j | 0 <= i < j < |ns| :: ns[i] != ns[j]
    requires forall i | 0 <= i < |ns| :: FixedIfShort(ns[i], u)
    ensures IsNormalization(ns, ns, u) <==> forall i | 0 <= i < |ns| :: Bytes(ns[i], u) <= MAXIMUM_URL_BYTES
  {
    forall i | 0 <= i < |ns|
      ensures NormalizeUrl(ns[i], u) == Some(ns[i]) <==> Bytes(ns[i], u) <= MAXIMUM_URL_BYTES
    {
      assert FixedIfShort(ns[i], u);
    }
  }

  /** Settings that were accepted are accepted again as they are, exactly if lower case made none of
      them too long. */
  lemma NormalizedAgain(urls: seq<string>, normalized: seq<string>, u: Unicode)
    requires Sane(u) && IsNormalization(urls, normalized, u)
    ensures Entered(normalized, u) == normalized
    ensures IsNormalization(normalized, normalized, u) <==>
      forall i | 0 <= i < |normalized| :: Bytes(normalized[i], u) <= MAXIMUM_URL_BYTES
  {
    forall i | 0 <= i < |normalized| ensures IsEntered(normalized[i], u) && FixedIfShort(normalized[i], u) {
      NormalizedEntry(urls, normalized, i, u);
    }
    EnteredPlain(normalized, u);
    SelfNormalization(normalized, u);
  }
}
