/**
  Address resolution and base-URL construction of the Plex checker
  (`get_ip_from_domain` and `get_base_plex_url` in src/plex_checker.rs).
  The DNS answer is an input: either a lookup error or the list of
  resolved addresses, each already written as text.
 */
module PlexUrl {
  import opened Wrappers
  import opened Decimal
  import opened Config

  const HttpsPrefix: string := "https://"
  const HttpPrefix: string := "http://"
  const PlexDirectTrailDomain: string := "plex.direct"
  const PlexDirectSuffix: string := "." + PlexDirectTrailDomain

  /** The process exit status used when the domain does not resolve. */
  const DnsFailureExitCode: nat := 2

  /** `str::replace(".", "-")`: every `.` becomes `-`, every other character stays. */
  function ReplaceDots(s: string): (r: string)
    ensures |r| == |s|
    ensures forall i :: 0 <= i < |s| ==> r[i] == if s[i] == '.' then '-' else s[i]
    ensures '.' !in r
  {
    if s == [] then []
    else ReplaceDots(s[..|s| - 1]) + [if s[|s| - 1] == '.' then '-' else s[|s| - 1]]
  }

  /**
    `get_ip_from_domain` once the lookup has been made: a failed lookup or
    an empty answer terminates the process with status 2 (here `Err(2)`);
    otherwise the first address with its dots turned into dashes.
   */
  function GetIpFromDomain(lookup: Result<seq<string>, ()>): (r: Result<string, nat>)
    ensures r.Err? <==> lookup.Err? || |lookup.value| == 0
    ensures r.Err? ==> r.error == DnsFailureExitCode
    ensures r.Ok? ==> '.' !in r.value && |r.value| == |lookup.value[0]|
    ensures r.Ok? ==> forall i :: 0 <= i < |r.value| ==>
              r.value[i] == if lookup.value[0][i] == '.' then '-' else lookup.value[0][i]
  {
    match lookup
    case Err(_) => Err(DnsFailureExitCode)
    case Ok(ips) => if |ips| < 1 then Err(DnsFailureExitCode) else Ok(ReplaceDots(ips[0]))
  }

  function Scheme(ssl: bool): string {
    if ssl then HttpsPrefix else HttpPrefix
  }

  predicate StartsWith(s: string, prefix: string) {
    |prefix| <= |s| && s[..|prefix|] == prefix
  }

  /** The `format!` of `get_base_plex_url`: `<scheme><ip>.<uuid>.plex.direct:<port>/`. */
  function FormatBaseUrl(ssl: bool, ip: string, certificateUuid: string, port: U16): (r: string)
    ensures ssl <==> StartsWith(r, HttpsPrefix)
    ensures !ssl ==> StartsWith(r, HttpPrefix)
    ensures r[|r| - 1] == '/'
  {
    var host := ip + "." + (certificateUuid + PlexDirectSuffix + ":" + DecimalString(port));
    var r := Scheme(ssl) + host + "/";
    assert !ssl ==> r[4] == ':';
    r
  }

  /** `get_base_plex_url`: resolve the configured domain, then format the URL. */
  function GetBasePlexUrl(plex: PlexConfig, lookup: Result<seq<string>, ()>): (r: Result<string, nat>)
    ensures r.Err? <==> GetIpFromDomain(lookup).Err?
    ensures r.Err? ==> r.error == DnsFailureExitCode
    ensures r.Ok? ==> (plex.ssl <==> StartsWith(r.value, HttpsPrefix))
    ensures r.Ok? ==>
              SplitBaseUrl(r.value) == Some(BaseUrlParts(plex.ssl, GetIpFromDomain(lookup).value, plex.certificateUuid, plex.port))
  {
    match GetIpFromDomain(lookup)
    case Err(code) => Err(code)
    case Ok(ip) =>
      SplitBaseUrlRoundTrip(plex.ssl, ip, plex.certificateUuid, plex.port);
      Ok(FormatBaseUrl(plex.ssl, ip, plex.certificateUuid, plex.port))
  }

  // ---------------------------------------------------------------------
  // Reading a base URL back into its parts: the inverse of FormatBaseUrl.
  // ---------------------------------------------------------------------

  datatype BaseUrlParts = BaseUrlParts(ssl: bool, ip: string, certificateUuid: string, port: U16)

  /** Index of the first `c` in `s`, or `|s|` when there is none. */
  function FirstIndexOf(s: string, c: char): (i: nat)
    ensures i <= |s|
    ensures i < |s| ==> s[i] == c
    ensures forall j :: 0 <= j < i ==> s[j] != c
  {
    if s == [] then 0 else if s[0] == c then 0 else 1 + FirstIndexOf(s[1..], c)
  }

  /** Index of the last `c` in `s`, if any. */
  function LastIndexOf(s: string, c: char): (r: Option<nat>)
    ensures r.None? ==> c !in s
    ensures r.Some? ==> r.value < |s| && s[r.value] == c
    ensures r.Some? ==> forall j :: r.value < j < |s| ==> s[j] != c
  {
    if s == [] then None
    else if s[|s| - 1] == c then Some(|s| - 1)
    else LastIndexOf(s[..|s| - 1], c)
  }

  /**
    Splits `<ip>.<uuid>.plex.direct:<port>`: the IP ends at the first dot,
    the port starts after the last colon.
   */
  function SplitHost(host: string): Option<(string, string, U16)> {
    var dot := FirstIndexOf(host, '.');
    if dot == |host| then None
    else
      match SplitPlexDirect(host[dot + 1..])
      case None => None
      case Some((certificateUuid, port)) => Some((host[..dot], certificateUuid, port))
  }

  /** Splits `<uuid>.plex.direct:<port>` at the last colon. */
  function SplitPlexDirect(rest: string): Option<(string, U16)> {
    match LastIndexOf(rest, ':')
    case None => None
    case Some(colon) =>
      match StripSuffix(rest[..colon], PlexDirectSuffix)
      case None => None
      case Some(certificateUuid) =>
        match ParsePort(rest[colon + 1..])
        case None => None
        case Some(port) => Some((certificateUuid, port))
  }

  /** `s` without its trailing `suffix`, if it ends with it. */
  function StripSuffix(s: string, suffix: string): (r: Option<string>)
    ensures r.Some? <==> |suffix| <= |s| && s[|s| - |suffix|..] == suffix
    ensures r.Some? ==> s == r.value + suffix
  {
    if |suffix| <= |s| && s[|s| - |suffix|..] == suffix then
      assert s == s[..|s| - |suffix|] + suffix;
      Some(s[..|s| - |suffix|])
    else None
  }

  /** A port as `get_base_plex_url` writes it: a u16 in its canonical decimal spelling. */
  function ParsePort(text: string): (r: Option<U16>)
    ensures r.Some? ==> text == DecimalString(r.value)
  {
    match ParseU64(text)
    case None => None
    case Some(port) => if port < 0x1_0000 && text == DecimalString(port) then Some(port) else None
  }

  /** Splits `<scheme><host>/` and then the host. */
  function SplitBaseUrl(url: string): Option<BaseUrlParts> {
    var ssl := StartsWith(url, HttpsPrefix);
    var scheme := Scheme(ssl);
    if !StartsWith(url, scheme) || |url| < |scheme| + 1 || url[|url| - 1] != '/' then None
    else
      match SplitHost(url[|scheme|..|url| - 1])
      case None => None
      case Some((ip, certificateUuid, port)) => Some(BaseUrlParts(ssl, ip, certificateUuid, port))
  }

  lemma FirstDotAfterIp(ip: string, rest: string)
    requires '.' !in ip
    ensures FirstIndexOf(ip + "." + rest, '.') == |ip|
  {
    var host := ip + "." + rest;
    var dot := FirstIndexOf(host, '.');
    assert host[|ip|] == '.';
  }

  lemma {:induction false} LastColonBeforeDigits(prefix: string, digits: string)
    requires AllDigits(digits)
    ensures LastIndexOf(prefix + ":" + digits, ':') == Some(|prefix|)
    decreases |digits|
  {
    var s := prefix + ":" + digits;
    if digits == [] {
      assert s[|s| - 1] == ':';
    } else {
      var shorter := digits[..|digits| - 1];
      assert IsDigit(digits[|digits| - 1]);
      assert s[..|s| - 1] == prefix + ":" + shorter;
      LastColonBeforeDigits(prefix, shorter);
    }
  }

  lemma SplitPlexDirectRoundTrip(certificateUuid: string, port: U16)
    ensures SplitPlexDirect(certificateUuid + PlexDirectSuffix + ":" + DecimalString(port))
            == Some((certificateUuid, port))
  {
    var tail := certificateUuid + PlexDirectSuffix;
    var digits := DecimalString(port);
    var rest := tail + ":" + digits;
    LastColonBeforeDigits(tail, digits);
    assert rest[..|tail|] == tail;
    assert rest[|tail| + 1..] == digits;
    assert tail[|tail| - |PlexDirectSuffix|..] == PlexDirectSuffix;
    assert StripSuffix(tail, PlexDirectSuffix) == Some(certificateUuid);
    ParseU64OfDecimal(port);
  }

  lemma SplitHostRoundTrip(ip: string, certificateUuid: string, port: U16)
    requires '.' !in ip
    ensures SplitHost(ip + "." + (certificateUuid + PlexDirectSuffix + ":" + DecimalString(port)))
            == Some((ip, certificateUuid, port))
  {
    var rest := certificateUuid + PlexDirectSuffix + ":" + DecimalString(port);
    var host := ip + "." + rest;
    FirstDotAfterIp(ip, rest);
    assert host[|ip| + 1..] == rest;
    assert host[..|ip|] == ip;
    SplitPlexDirectRoundTrip(certificateUuid, port);
  }

  /**
    A base URL built from a dot-free IP (as GetIpFromDomain produces) can
    be read back: scheme flag, IP, certificate id and port are all recovered.
   */
  lemma SplitBaseUrlRoundTrip(ssl: bool, ip: string, certificateUuid: string, port: U16)
    requires '.' !in ip
    ensures SplitBaseUrl(FormatBaseUrl(ssl, ip, certificateUuid, port))
            == Some(BaseUrlParts(ssl, ip, certificateUuid, port))
  {
    var url := FormatBaseUrl(ssl, ip, certificateUuid, port);
    var scheme := Scheme(ssl);
    var host := ip + "." + (certificateUuid + PlexDirectSuffix + ":" + DecimalString(port));
    assert url == scheme + host + "/";
    assert url[..|scheme|] == scheme;
    assert url[|scheme|..|url| - 1] == host;
    SplitHostRoundTrip(ip, certificateUuid, port);
  }

  lemma SplitPlexDirectExact(rest: string, certificateUuid: string, port: U16)
    requires SplitPlexDirect(rest) == Some((certificateUuid, port))
    ensures rest == certificateUuid + PlexDirectSuffix + ":" + DecimalString(port)
  {
    var colon := LastIndexOf(rest, ':').value;
    assert rest == rest[..colon] + ":" + rest[colon + 1..];
  }

  /** Where SplitHost cuts an accepted host: right after the IP, at its first dot. */
  lemma SplitHostAtFirstDot(host: string, ip: string, certificateUuid: string, port: U16)
    requires SplitHost(host) == Some((ip, certificateUuid, port))
    ensures '.' !in ip
    ensures |ip| < |host| && host == ip + "." + host[|ip| + 1..]
    ensures SplitPlexDirect(host[|ip| + 1..]) == Some((certificateUuid, port))
  {
    var dot := FirstIndexOf(host, '.');
    assert dot < |host| && host[dot] == '.';
    assert ip == host[..dot];
    DotSplit(host, dot);
  }

  lemma DotSplit(s: string, i: nat)
    requires i < |s| && s[i] == '.'
    ensures s == s[..i] + "." + s[i + 1..]
  {
    assert s == s[..i] + [s[i]] + s[i + 1..];
  }

  /** The converse on the host: every host SplitHost accepts is exactly the one it describes. */
  lemma SplitHostExact(host: string, ip: string, certificateUuid: string, port: U16)
    requires SplitHost(host) == Some((ip, certificateUuid, port))
    ensures '.' !in ip
    ensures host == ip + "." + (certificateUuid + PlexDirectSuffix + ":" + DecimalString(port))
  {
    SplitHostAtFirstDot(host, ip, certificateUuid, port);
    SplitPlexDirectExact(host[|ip| + 1..], certificateUuid, port);
  }

  lemma UrlShape(url: string, scheme: string)
    requires StartsWith(url, scheme) && |url| >= |scheme| + 1 && url[|url| - 1] == '/'
    ensures url == scheme + url[|scheme|..|url| - 1] + "/"
  {
    assert url == url[..|scheme|] + url[|scheme|..|url| - 1] + [url[|url| - 1]];
  }

  /**
    The converse of SplitBaseUrlRoundTrip: every URL SplitBaseUrl accepts is
    the base URL FormatBaseUrl builds from its parts, with a dot-free IP, so
    no other spelling (leading zeros, a `+` sign) of the port is read back.
   */
  lemma SplitBaseUrlExact(url: string, p: BaseUrlParts)
    requires SplitBaseUrl(url) == Some(p)
    ensures '.' !in p.ip
    ensures url == FormatBaseUrl(p.ssl, p.ip, p.certificateUuid, p.port)
  {
    var scheme := Scheme(p.ssl);
    var host := url[|scheme|..|url| - 1];
    assert SplitHost(host) == Some((p.ip, p.certificateUuid, p.port));
    SplitHostExact(host, p.ip, p.certificateUuid, p.port);
    UrlShape(url, scheme);
  }
}
