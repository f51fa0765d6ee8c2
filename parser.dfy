/**
 * vaultprivacy/parser.py: the heuristic domain normaliser `normalize_domain`
 * and the order-keeping, de-duplicating walk `extract_domains` over a
 * password-manager export that has already been decoded from JSON.
 */
module Parser {
  import opened Wrappers
  import opened Strings
  import opened Distinct

  /** `MULTIPART_TLDS`: the multi-part public suffixes the normaliser knows. */
  const MultipartTlds: set<string> := {"co.uk", "org.uk", "ac.uk", "gov.uk", "com.au", "co.jp", "com.br"}

  /** Text that can be a host as Hostname returns it: lower case, no delimiter of the authority. */
  predicate IsHostText(s: string) {
    forall i :: 0 <= i < |s| ==> !IsUpper(s[i]) && s[i] != ':' && s[i] != '/' && s[i] != '?' && s[i] != '#' && s[i] != '@'
  }

  lemma HostTextSuffix(a: string, b: string)
    requires IsHostText(b) && IsSuffix(a, b)
    ensures IsHostText(a)
  {
    forall i | 0 <= i < |a| ensures a[i] == b[|b| - |a| + i] {
      assert a[i] == b[|b| - |a|..][i];
    }
  }

  /**
   * MODELLING ASSUMPTION: the `hostname` attribute of `urllib.parse.urlparse(url)`,
   * simplified after the authority syntax of section 3.2 of RFC 3986. The
   * authority is the text after the first `://` up to the first `/`, `?` or
   * `#`; the user information ends at its last `@` (section 3.2.1); the port
   * starts at the first `:` after that (section 3.2.3); the host is lowered.
   * Bracketed IPv6 literals and the standard library's treatment of unusual
   * schemes are not modelled.
   */
  function Hostname(url: string): (host: string)
    ensures IsHostText(host)
    ensures !Contains(url, "://") ==> host == []
  {
    match Find(url, "://")
    case None => []
    case Some(i) =>
      var authority := TakeUntil(url[i + 3..], {'/', '?', '#'});
      var hostPort := AfterLast(authority, '@');
      var host := TakeUntil(hostPort, {':'});
      HostnameChars(authority, hostPort, host);
      Lower(host)
  }

  lemma HostnameChars(authority: string, hostPort: string, host: string)
    requires forall c :: c in authority ==> c !in {'/', '?', '#'}
    requires IsSuffix(hostPort, authority) && '@' !in hostPort
    requires |host| <= |hostPort| && host == hostPort[..|host|] && ':' !in host
    ensures IsHostText(Lower(host))
  {
    forall i | 0 <= i < |host|
      ensures host[i] != '/' && host[i] != '?' && host[i] != '#' && host[i] != '@' && host[i] != ':'
    {
      assert host[i] == hostPort[i];
      assert hostPort[i] == authority[|authority| - |hostPort| + i];
      assert authority[|authority| - |hostPort| + i] in authority;
      assert hostPort[i] in hostPort;
      assert host[i] in host;
    }
  }

  /** `re.sub(r"^(www\.|m\.)", "", host)`: at most one leading `www.` or `m.` removed. */
  function StripPrefix(host: string): (h: string)
    ensures IsSuffix(h, host)
    ensures h == host || "www." + h == host || ("m." + h == host && !StartsWith(host, "www."))
    ensures h == host <==> !StartsWith(host, "www.") && !StartsWith(host, "m.")
  {
    if StartsWith(host, "www.") then host[4..]
    else if StartsWith(host, "m.") then host[2..]
    else host
  }

  /** The last `k` labels joined by dots, `".".join(parts[-k:])`. */
  function LastLabels(parts: seq<string>, k: nat): string
    requires k <= |parts|
  {
    Join(parts[|parts| - k..])
  }

  /**
   * Lines 29-42 of `normalize_domain`: a host of fewer than two labels is kept;
   * otherwise the last two labels, or the last three when the last two form a
   * known multi-part suffix (and the last four when the last three do).
   */
  function RootDomain(host: string): string
  {
    var parts := Split(host);
    if |parts| < 2 then host
    else
      var lastTwo := LastLabels(parts, 2);
      var lastThree := if |parts| >= 3 then LastLabels(parts, 3) else "";
      if lastTwo in MultipartTlds && |parts| >= 3 then LastLabels(parts, 3)
      else if lastThree in MultipartTlds && |parts| >= 4 then LastLabels(parts, 4)
      else lastTwo
  }

  /** `normalize_domain(raw)`. */
  function NormalizeDomain(raw: string): (r: string)
    ensures raw == [] ==> r == []
    ensures var s := Lower(Strip(raw)); '@' in s && !Contains(s, "://") ==> r == []
    ensures IsHostText(r)
    ensures 1 <= |Split(r)| <= 3
  {
    if raw == [] then []
    else
      var s := Lower(Strip(raw));
      if '@' in s && !Contains(s, "://") then []
      else
        var url := if Contains(s, "://") then s else "https://" + s;
        var host := Hostname(url);
        if host == [] then []
        else
          RootDomainShape(StripPrefix(host));
          HostTextSuffix(StripPrefix(host), host);
          HostTextSuffix(RootDomain(StripPrefix(host)), StripPrefix(host));
          RootDomain(StripPrefix(host))
  }

  // ---------------------------------------------------------------------------
  // The suffix table and the shape of RootDomain's result

  lemma TwoLabels(a: string, b: string)
    requires '.' !in a && '.' !in b
    ensures Split(a + "." + b) == [a, b]
  {
    SplitDot(a, b);
    SplitDotFree(b);
  }

  lemma ThreeLabels(a: string, b: string, c: string)
    requires '.' !in a && '.' !in b && '.' !in c
    ensures Split(a + "." + b + "." + c) == [a, b, c]
  {
    assert a + "." + b + "." + c == a + "." + (b + "." + c);
    SplitDot(a, b + "." + c);
    TwoLabels(b, c);
  }

  /** A string with a single dot, at `p`, has the two labels around it. */
  lemma OneDotSplit(s: string, p: nat)
    requires p < |s| && s[p] == '.'
    requires forall i :: 0 <= i < |s| && i != p ==> s[i] != '.'
    ensures Split(s) == [s[..p], s[p + 1..]]
  {
    assert s == s[..p] + "." + s[p + 1..];
    forall c | c in s[..p] ensures c != '.' {
      var j :| 0 <= j < p && s[..p][j] == c;
      assert s[j] == c;
    }
    var tail := s[p + 1..];
    forall c | c in tail ensures c != '.' {
      var j :| 0 <= j < |tail| && tail[j] == c;
      assert s[p + 1 + j] == c;
    }
    TwoLabels(s[..p], tail);
  }

  /** Each entry of the table is a label of two or three letters, one dot, and a label of two. */
  lemma TableEntryShape(e: string)
    requires e in MultipartTlds
    ensures 5 <= |e| && (e[|e| - 3] == '.' || e[|e| - 4] == '.')
    ensures forall i :: 0 <= i < |e| && i != |e| - 3 && i != |e| - 4 ==> e[i] != '.'
    ensures e[|e| - 3] != '.' || e[|e| - 4] != '.'
  {
  }

  /** Every entry of the table has exactly two labels. */
  lemma TableEntriesHaveTwoLabels()
    ensures forall e :: e in MultipartTlds ==> |Split(e)| == 2
  {
    forall e | e in MultipartTlds ensures |Split(e)| == 2 {
      TableEntryShape(e);
      OneDotSplit(e, if e[|e| - 3] == '.' then |e| - 3 else |e| - 4);
    }
  }

  /** Three labels never form an entry of the table, so the four-label branch of RootDomain is dead. */
  lemma ThreeLabelsNotInTable(parts: seq<string>)
    requires |parts| == 3 && DotFree(parts)
    ensures Join(parts) !in MultipartTlds
  {
    SplitJoin(parts);
    TableEntriesHaveTwoLabels();
  }

  lemma DotFreeSuffix(parts: seq<string>, k: nat)
    requires k <= |parts| && DotFree(parts)
    ensures DotFree(parts[k..])
  {
    forall i | 0 <= i < |parts| - k ensures '.' !in parts[k..][i] {
      assert parts[k..][i] == parts[k + i];
    }
  }

  /** The labels RootDomain keeps, as a function of the labels of the host. */
  function RootLabels(parts: seq<string>): (r: seq<string>)
    ensures |parts| >= 1 ==> 1 <= |r| <= 3
    ensures |r| <= |parts| && r == parts[|parts| - |r|..]
  {
    var n := |parts|;
    if n < 2 then assert parts[0..] == parts; parts
    else if n >= 3 && Join(parts[n - 2..]) in MultipartTlds then parts[n - 3..]
    else parts[n - 2..]
  }

  /** RootDomain joins the labels RootLabels keeps. */
  lemma RootDomainLabels(host: string)
    ensures RootDomain(host) == Join(RootLabels(Split(host)))
  {
    var parts := Split(host);
    var n := |parts|;
    if n < 2 {
      JoinSplit(host);
    } else if n >= 4 {
      DotFreeSuffix(parts, n - 3);
      ThreeLabelsNotInTable(parts[n - 3..]);
    }
  }

  /** Keeping the root labels of the root labels keeps them all. */
  lemma RootLabelsIdempotent(parts: seq<string>)
    ensures RootLabels(RootLabels(parts)) == RootLabels(parts)
  {
    var n := |parts|;
    var q := RootLabels(parts);
    if n >= 3 && Join(parts[n - 2..]) in MultipartTlds {
      assert q[1..] == parts[n - 2..];
      assert q[0..] == q;
    } else if n >= 2 {
      assert q[0..] == q;
    }
  }

  /**
   * What lines 29-42 return: the host itself when it has fewer than two labels;
   * its last three labels when it has at least three and the last two form a
   * known multi-part suffix; its last two labels otherwise. The result is a
   * suffix of the host with one, two or three labels.
   */
  lemma RootDomainShape(host: string)
    ensures var parts := Split(host);
      && (|parts| < 2 ==> RootDomain(host) == host)
      && (|parts| >= 3 && LastLabels(parts, 2) in MultipartTlds ==> RootDomain(host) == LastLabels(parts, 3))
      && (|parts| >= 2 && !(|parts| >= 3 && LastLabels(parts, 2) in MultipartTlds) ==> RootDomain(host) == LastLabels(parts, 2))
    ensures IsSuffix(RootDomain(host), host)
    ensures 1 <= |Split(RootDomain(host))| <= 3
  {
    var parts := Split(host);
    var kept := RootLabels(parts);
    RootDomainLabels(host);
    JoinSplit(host);
    DotFreeSuffix(parts, |parts| - |kept|);
    SplitJoin(kept);
    if |kept| < |parts| {
      JoinSuffix(parts, |parts| - |kept|);
    } else {
      assert kept == parts;
    }
  }

  /** Collapsing a host twice gives what collapsing it once gives. */
  lemma RootDomainIdempotent(host: string)
    ensures RootDomain(RootDomain(host)) == RootDomain(host)
  {
    var parts := Split(host);
    var kept := RootLabels(parts);
    RootDomainLabels(host);
    DotFreeSuffix(parts, |parts| - |kept|);
    SplitJoin(kept);
    RootDomainLabels(Join(kept));
    RootLabelsIdempotent(parts);
  }

  // ---------------------------------------------------------------------------
  // Properties of normalize_domain

  /**
   * The host of a URL whose authority starts after the first `://`, at `i`, and
   * is a bare host ended by `/`, `?`, `#` or the end of the URL.
   */
  lemma HostnameAt(url: string, i: nat, host: string)
    requires MatchAt(url, "://", i) && forall k :: 0 <= k < i ==> url[k] != ':'
    requires i + 3 + |host| <= |url| && url[i + 3..i + 3 + |host|] == host && IsHostText(host)
    requires i + 3 + |host| < |url| ==> url[i + 3 + |host|] in {'/', '?', '#'}
    ensures Hostname(url) == host
  {
    FindFirstColon(url, i);
    var rest := url[i + 3..];
    assert rest[..|host|] == host;
    TakeUntilAt(rest, {'/', '?', '#'}, |host|);
    HostOfBareAuthority(host);
  }

  /** The first `://` is the one at `i` when no `:` comes before it. */
  lemma FindFirstColon(url: string, i: nat)
    requires MatchAt(url, "://", i) && forall k :: 0 <= k < i ==> url[k] != ':'
    ensures Find(url, "://") == Some(i)
  {
    var j := Find(url, "://").value;
    assert url[j] == url[j..j + 3][0];
  }

  /** An authority that is a bare host: no user information, no port, lower case. */
  lemma HostOfBareAuthority(host: string)
    requires IsHostText(host)
    ensures Lower(TakeUntil(AfterLast(host, '@'), {':'})) == host
  {
    AfterLastAbsent(host, '@');
    TakeUntilNoStops(host, {':'});
    LowerSpec(host);
  }

  /** A host as Hostname returns it is its own hostname once `https://` is put in front. */
  lemma HostnameOfHost(h: string)
    requires IsHostText(h)
    ensures Hostname("https://" + h) == h
  {
    var url := "https://" + h;
    assert url[8..8 + |h|] == h;
    HostnameAt(url, 5, h);
  }

  /** After `https`, the first `://` is at 5. */
  lemma HttpsSeparator(rest: string)
    ensures Find("https://" + rest, "://") == Some(5)
  {
    var url := "https://" + rest;
    assert url[..8] == "https://";
    assert url[5..8] == "://";
    FindFirstColon(url, 5);
  }

  /** An authority free of `/`, `?` and `#` ends where the path, query or fragment starts. */
  lemma AuthorityEnd(authority: string, path: string)
    requires forall i :: 0 <= i < |authority| ==> authority[i] !in {'/', '?', '#'}
    requires path == [] || path[0] in {'/', '?', '#'}
    ensures TakeUntil(authority + path, {'/', '?', '#'}) == authority
  {
    var s := authority + path;
    assert s[..|authority|] == authority;
    TakeUntilAt(s, {'/', '?', '#'}, |authority|);
  }

  /** The characters of `user@host:port`, none of which ends the authority. */
  lemma AuthorityChars(user: string, host: string, port: string)
    requires IsHostText(host)
    requires forall i :: 0 <= i < |user| ==> user[i] !in {'/', '?', '#'}
    requires forall i :: 0 <= i < |port| ==> port[i] !in {'/', '?', '#', '@'}
    ensures var authority := user + "@" + host + ":" + port;
      forall i :: 0 <= i < |authority| ==> authority[i] !in {'/', '?', '#'}
  {
    var authority := user + "@" + host + ":" + port;
    forall i | 0 <= i < |authority| ensures authority[i] !in {'/', '?', '#'} {
      if i < |user| {
        assert authority[i] == user[i];
      } else if i == |user| {
        assert authority[i] == '@';
      } else if i < |user| + 1 + |host| {
        assert authority[i] == host[i - |user| - 1];
      } else if i == |user| + 1 + |host| {
        assert authority[i] == ':';
      } else {
        assert authority[i] == port[i - |user| - 2 - |host|];
      }
    }
  }

  /** The host and port follow the last `@`. */
  lemma {:induction false} UserInfoEnd(user: string, host: string, port: string)
    requires IsHostText(host)
    requires forall i :: 0 <= i < |port| ==> port[i] !in {'/', '?', '#', '@'}
    ensures AfterLast(user + "@" + host + ":" + port, '@') == host + ":" + port
  {
    var hostPort := host + ":" + port;
    forall i | 0 <= i < |hostPort| ensures hostPort[i] != '@' {
      if i < |host| {
        assert hostPort[i] == host[i];
      } else if i > |host| {
        assert hostPort[i] == port[i - |host| - 1];
      }
    }
    AfterLastSeparator(user, '@', hostPort);
    assert user + "@" + host + ":" + port == user + ['@'] + hostPort;
  }

  /** The port starts at the first `:` after the host. */
  lemma PortStart(host: string, port: string)
    requires IsHostText(host)
    ensures TakeUntil(host + ":" + port, {':'}) == host
  {
    var hostPort := host + ":" + port;
    assert hostPort[..|host|] == host;
    TakeUntilAt(hostPort, {':'}, |host|);
  }

  /** Hostname put together from its steps: the scheme separator, the authority and the host. */
  lemma {:induction false} HostnameOfParts(url: string, i: nat, authority: string, host: string)
    requires Find(url, "://") == Some(i)
    requires TakeUntil(url[i + 3..], {'/', '?', '#'}) == authority
    requires TakeUntil(AfterLast(authority, '@'), {':'}) == host && IsHostText(host)
    ensures Hostname(url) == host
  {
    assert IsLowercase(host);
    LowerSpec(host);
  }

  /**
   * The user information up to `@` and the port from `:` are not part of the
   * host, and the path, query or fragment ends the authority.
   */
  lemma HostnameWithUserAndPort(user: string, host: string, port: string, path: string)
    requires IsHostText(host)
    requires forall i :: 0 <= i < |user| ==> user[i] !in {'/', '?', '#'}
    requires forall i :: 0 <= i < |port| ==> port[i] !in {'/', '?', '#', '@'}
    requires path == [] || path[0] in {'/', '?', '#'}
    ensures Hostname("https://" + user + "@" + host + ":" + port + path) == host
  {
    var authority := user + "@" + host + ":" + port;
    var url := "https://" + (authority + path);
    assert url == "https://" + user + "@" + host + ":" + port + path;
    HttpsSeparator(authority + path);
    assert url[5 + 3..] == authority + path;
    AuthorityChars(user, host, port);
    AuthorityEnd(authority, path);
    UserInfoEnd(user, host, port);
    PortStart(host, port);
    HostnameOfParts(url, 5, authority, host);
  }

  lemma UserPortFacts(user: string, host: string, port: string, path: string)
    requires user == "u" && host == "h.com" && port == "80" && path == "/x"
    ensures IsHostText(host)
    ensures forall i :: 0 <= i < |user| ==> user[i] !in {'/', '?', '#'}
    ensures forall i :: 0 <= i < |port| ==> port[i] !in {'/', '?', '#', '@'}
    ensures path == [] || path[0] in {'/', '?', '#'}
    ensures "https://u@h.com:80/x" == "https://" + user + "@" + host + ":" + port + path
  {
  }

  /** `https://u@h.com:80/x` has the host `h.com`. */
  lemma HostnameUserInfoPort()
    ensures Hostname("https://u@h.com:80/x") == "h.com"
  {
    UserPortFacts("u", "h.com", "80", "/x");
    HostnameWithUserAndPort("u", "h.com", "80", "/x");
  }

  /**
   * Re-normalising a result changes nothing, unless the result starts with a
   * label `www` or `m` (which the second pass strips) or with or ends in white
   * space (which the second pass trims).
   */
  lemma NormalizeIdempotent(raw: string)
    requires var r := NormalizeDomain(raw); Strip(r) == r && StripPrefix(r) == r
    ensures NormalizeDomain(NormalizeDomain(raw)) == NormalizeDomain(raw)
  {
    var r := NormalizeDomain(raw);
    if r != [] {
      var s := Strip(raw);
      var host := Hostname(if Contains(Lower(s), "://") then Lower(s) else "https://" + Lower(s));
      RootDomainIdempotent(StripPrefix(host));
      LowerSpec(r);
      assert Lower(Strip(r)) == r;
      NotContainsChar(r, "://");
      assert '@' !in r;
      HostnameOfHost(r);
    }
  }

  // ---------------------------------------------------------------------------
  // Worked examples

  /** The root of the join of some dot-free labels is the join of the labels RootLabels keeps. */
  lemma RootDomainOfLabels(parts: seq<string>)
    requires |parts| >= 1 && DotFree(parts)
    ensures RootDomain(Join(parts)) == Join(RootLabels(parts))
  {
    SplitJoin(parts);
    RootDomainLabels(Join(parts));
  }

  lemma RootDomainOneLabel(a: string)
    requires '.' !in a
    ensures RootDomain(a) == a
  {
    SplitDotFree(a);
  }

  lemma RootDomainTwoLabels(a: string, b: string)
    requires '.' !in a && '.' !in b
    ensures RootDomain(a + "." + b) == a + "." + b
  {
    TwoLabels(a, b);
    assert RootDomain(a + "." + b) == LastLabels([a, b], 2);
    assert [a, b][0..] == [a, b];
    assert [a, b][1..] == [b];
    assert Join([a, b]) == a + "." + b;
  }

  /** An input that is a bare lower-case host normalises to the root of the host with its prefix stripped. */
  lemma NormalizeBareHost(raw: string)
    requires raw != [] && !IsSpace(raw[0]) && !IsSpace(raw[|raw| - 1]) && IsHostText(raw)
    ensures NormalizeDomain(raw) == RootDomain(StripPrefix(raw))
  {
    StripFixed(raw);
    NormalizeTrimmedHost(raw, raw);
  }

  /** An input that trims to a bare lower-case host normalises to the root of that host with its prefix stripped. */
  lemma NormalizeTrimmedHost(raw: string, host: string)
    requires raw != [] && Strip(raw) == host && host != [] && IsHostText(host)
    ensures NormalizeDomain(raw) == RootDomain(StripPrefix(host))
  {
    LowerSpec(host);
    NotContainsChar(host, "://");
    HostnameOfHost(host);
  }

  /**
   * An input that is a lower-case URL whose first `://` is at `i` and whose
   * authority is the bare host `host` normalises to the root of that host with
   * its prefix stripped.
   */
  lemma NormalizeUrlHost(raw: string, i: nat, host: string)
    requires raw != [] && !IsSpace(raw[0]) && !IsSpace(raw[|raw| - 1]) && IsLowercase(raw)
    requires MatchAt(raw, "://", i) && forall k :: 0 <= k < i ==> raw[k] != ':'
    requires i + 3 + |host| <= |raw| && raw[i + 3..i + 3 + |host|] == host && IsHostText(host) && host != []
    requires i + 3 + |host| < |raw| ==> raw[i + 3 + |host|] in {'/', '?', '#'}
    ensures NormalizeDomain(raw) == RootDomain(StripPrefix(host))
  {
    StripFixed(raw);
    LowerSpec(raw);
    FindFirstColon(raw, i);
    HostnameAt(raw, i, host);
  }

  lemma WwwWwwHost(raw: string)
    requires raw == "www.www.com"
    ensures raw != [] && !IsSpace(raw[0]) && !IsSpace(raw[|raw| - 1]) && IsHostText(raw)
  {
  }

  lemma WwwWwwPrefix(raw: string)
    requires raw == "www.www.com"
    ensures StripPrefix(raw) == "www.com"
  {
    assert raw[..4] == "www." && raw[4..] == "www.com";
  }

  lemma WwwComLabels(host: string)
    requires host == "www.com"
    ensures '.' !in "www" && '.' !in "com" && "www" + "." + "com" == host
  {
  }

  /** `www.www.com` normalises to `www.com`. */
  lemma NormalizeWwwWww()
    ensures NormalizeDomain("www.www.com") == "www.com"
  {
    var raw, host := "www.www.com", "www.com";
    WwwWwwHost(raw);
    WwwWwwPrefix(raw);
    WwwComLabels(host);
    RootDomainTwoLabels("www", "com");
    NormalizeBareHost(raw);
  }

  /** `www.com` normalises to `com`. */
  lemma NormalizeWww()
    ensures NormalizeDomain("www.com") == "com"
  {
    var raw := "www.com";
    assert IsHostText(raw);
    assert StripPrefix(raw) == "com" by {
      assert raw[..4] == "www." && raw[4..] == "com";
    }
    RootDomainOneLabel("com");
    NormalizeBareHost(raw);
  }

  /** Normalising `www.www.com` twice does not give what normalising it once gives. */
  lemma IdempotenceCounterexampleWww()
    ensures NormalizeDomain(NormalizeDomain("www.www.com")) != NormalizeDomain("www.www.com")
  {
    NormalizeWwwWww();
    NormalizeWww();
  }

  lemma SpacedUrlFacts(raw: string, host: string)
    requires raw == "https:// a.com" && host == " a.com"
    ensures raw != [] && !IsSpace(raw[0]) && !IsSpace(raw[|raw| - 1]) && IsLowercase(raw)
    ensures MatchAt(raw, "://", 5) && forall k :: 0 <= k < 5 ==> raw[k] != ':'
    ensures 5 + 3 + |host| <= |raw| && raw[5 + 3..5 + 3 + |host|] == host && IsHostText(host) && host != []
    ensures !(5 + 3 + |host| < |raw|)
    ensures '.' !in " a" && '.' !in "com" && " a" + "." + "com" == host
  {
    assert |raw| == 14 && |host| == 6;
    assert raw[8..14] == host;
  }

  /** A two-label host whose first label starts with neither `w` nor `m` has no prefix to strip. */
  lemma NoPrefixTwoLabels(first: string, tld: string)
    requires first != [] && first[0] != 'w' && first[0] != 'm'
    ensures StripPrefix(first + "." + tld) == first + "." + tld
  {
    var host := first + "." + tld;
    assert host[0] == first[0];
    if 4 <= |host| {
      assert host[..4][0] == host[0];
    }
    assert host[..2][0] == host[0];
  }

  /** `https:// a.com` normalises to ` a.com`. */
  lemma NormalizeSpacedUrl()
    ensures NormalizeDomain("https:// a.com") == " a.com"
  {
    var raw, host := "https:// a.com", " a.com";
    SpacedUrlFacts(raw, host);
    NoPrefixTwoLabels(" a", "com");
    RootDomainTwoLabels(" a", "com");
    NormalizeUrlHost(raw, 5, host);
  }

  lemma SpacedTrimFacts(raw: string, host: string)
    requires raw == " a.com" && host == "a.com"
    ensures raw != [] && Strip(raw) == host
  {
    assert raw == [' '] + host;
    StripLeadingSpace(' ', host);
  }

  lemma TrimmedHostFacts(host: string)
    requires host == "a.com"
    ensures IsHostText(host) && host != [] && StripPrefix(host) == host
    ensures '.' !in "a" && '.' !in "com" && "a" + "." + "com" == host
  {
    assert host[..4][1] != "www."[1] && host[..2][0] != "m."[0];
  }

  /** ` a.com` normalises to `a.com`. */
  lemma NormalizeSpacedHost()
    ensures NormalizeDomain(" a.com") == "a.com"
  {
    var raw, host := " a.com", "a.com";
    SpacedTrimFacts(raw, host);
    TrimmedHostFacts(host);
    RootDomainTwoLabels("a", "com");
    NormalizeTrimmedHost(raw, host);
  }

  /** Normalising `https:// a.com` twice does not give what normalising it once gives. */
  lemma IdempotenceCounterexampleSpace()
    ensures NormalizeDomain(NormalizeDomain("https:// a.com")) != NormalizeDomain("https:// a.com")
  {
    NormalizeSpacedUrl();
    NormalizeSpacedHost();
  }

  /** Only one prefix is removed: `www.m.example.com` keeps its `m` label. */
  lemma OnePrefixOnly()
    ensures StripPrefix("www.m.example.com") == "m.example.com"
  {
    assert "www.m.example.com"[..4] == "www." && "www.m.example.com"[4..] == "m.example.com";
  }

  lemma WwwMHost(raw: string)
    requires raw == "www.m.co.uk"
    ensures raw != [] && !IsSpace(raw[0]) && !IsSpace(raw[|raw| - 1]) && IsHostText(raw)
  {
  }

  lemma WwwMPrefix(raw: string)
    requires raw == "www.m.co.uk"
    ensures StripPrefix(raw) == "m.co.uk"
  {
    assert raw[..4] == "www." && raw[4..] == "m.co.uk";
  }

  lemma MCoUkLabels(host: string)
    requires host == "m.co.uk"
    ensures '.' !in "m" && '.' !in "co" && '.' !in "uk" && "co" + "." + "uk" in MultipartTlds
    ensures "m" + "." + "co" + "." + "uk" == host
  {
    assert "co" + "." + "uk" == "co.uk";
  }

  lemma ThreeLabelsJoin(a: string, b: string, c: string)
    ensures LastLabels([a, b, c], 2) == b + "." + c
    ensures LastLabels([a, b, c], 3) == a + "." + b + "." + c
  {
    var parts := [a, b, c];
    assert parts[1..] == [b, c] && [b, c][1..] == [c];
    assert Join([b, c]) == b + "." + c;
    assert parts[0..] == parts;
    assert Join(parts) == a + "." + (b + "." + c);
  }

  /** Three labels whose last two form a known suffix are kept whole. */
  lemma RootDomainThreeLabels(a: string, b: string, c: string)
    requires '.' !in a && '.' !in b && '.' !in c && b + "." + c in MultipartTlds
    ensures RootDomain(a + "." + b + "." + c) == a + "." + b + "." + c
  {
    ThreeLabels(a, b, c);
    ThreeLabelsJoin(a, b, c);
  }

  /** `www.m.co.uk` normalises to `m.co.uk`: the `m` label stays and is counted before the suffix. */
  lemma NormalizeWwwM()
    ensures NormalizeDomain("www.m.co.uk") == "m.co.uk"
  {
    var raw, host := "www.m.co.uk", "m.co.uk";
    WwwMHost(raw);
    WwwMPrefix(raw);
    MCoUkLabels(host);
    RootDomainThreeLabels("m", "co", "uk");
    NormalizeBareHost(raw);
  }

  /** `https://` followed by a bare lower-case host normalises to the root of the host with its prefix stripped. */
  lemma NormalizeHttpsHost(host: string)
    requires host != [] && IsHostText(host) && !IsSpace(host[|host| - 1])
    ensures NormalizeDomain("https://" + host) == RootDomain(StripPrefix(host))
  {
    var raw := "https://" + host;
    assert raw[0] == 'h' && raw[|raw| - 1] == host[|host| - 1];
    assert MatchAt(raw, "://", 5);
    assert raw[5 + 3..5 + 3 + |host|] == host;
    assert IsLowercase(raw) by {
      forall k | 0 <= k < |raw| ensures !IsUpper(raw[k]) {
        if k >= 8 {
          assert raw[k] == host[k - 8];
        }
      }
    }
    NormalizeUrlHost(raw, 5, host);
  }

  lemma ExampleComFacts(raw: string, host: string)
    requires raw == "https://example.com" && host == "example.com"
    ensures raw == "https://" + host && host != [] && IsHostText(host) && !IsSpace(host[|host| - 1])
    ensures '.' !in "example" && '.' !in "com" && "example" + "." + "com" == host
  {
  }

  /** `https://example.com` normalises to `example.com`. */
  lemma NormalizeExampleCom()
    ensures NormalizeDomain("https://example.com") == "example.com"
  {
    var raw, host := "https://example.com", "example.com";
    ExampleComFacts(raw, host);
    NoPrefixTwoLabels("example", "com");
    RootDomainTwoLabels("example", "com");
    NormalizeHttpsHost(host);
  }

  lemma TestOrgFacts(raw: string, host: string)
    requires raw == "https://test.org" && host == "test.org"
    ensures raw == "https://" + host && host != [] && IsHostText(host) && !IsSpace(host[|host| - 1])
    ensures StripPrefix(host) == host
    ensures '.' !in "test" && '.' !in "org" && "test" + "." + "org" == host
  {
    assert host[..4][0] != "www."[0] && host[..2][0] != "m."[0];
  }

  /** `https://test.org` normalises to `test.org`. */
  lemma NormalizeTestOrg()
    ensures NormalizeDomain("https://test.org") == "test.org"
  {
    var raw, host := "https://test.org", "test.org";
    TestOrgFacts(raw, host);
    RootDomainTwoLabels("test", "org");
    NormalizeHttpsHost(host);
  }

  lemma PathUrlFacts(raw: string, host: string)
    requires raw == "https://www.example.com/path" && host == "www.example.com"
    ensures raw != [] && !IsSpace(raw[0]) && !IsSpace(raw[|raw| - 1]) && IsLowercase(raw)
  {
  }

  lemma PathUrlScheme(raw: string, host: string)
    requires raw == "https://www.example.com/path" && host == "www.example.com"
    ensures MatchAt(raw, "://", 5) && forall k :: 0 <= k < 5 ==> raw[k] != ':'
  {
    assert raw == "https" + "://" + host + "/path";
  }

  lemma PathUrlHost(raw: string, host: string)
    requires raw == "https://www.example.com/path" && host == "www.example.com"
    ensures 5 + 3 + |host| <= |raw| && raw[5 + 3..5 + 3 + |host|] == host
    ensures 5 + 3 + |host| < |raw| && raw[5 + 3 + |host|] == '/'
  {
    assert raw == "https://" + host + "/path";
    assert raw[8..23] == host;
  }

  lemma WwwExampleFacts(host: string)
    requires host == "www.example.com"
    ensures IsHostText(host) && host != [] && StripPrefix(host) == "example.com"
    ensures '.' !in "example" && '.' !in "com" && "example" + "." + "com" == "example.com"
  {
    assert host[..4] == "www." && host[4..] == "example.com";
  }

  /** `https://www.example.com/path` normalises to `example.com`: the path ends the host and `www.` goes. */
  lemma NormalizeUrlWithPath()
    ensures NormalizeDomain("https://www.example.com/path") == "example.com"
  {
    var raw, host := "https://www.example.com/path", "www.example.com";
    PathUrlFacts(raw, host);
    PathUrlScheme(raw, host);
    PathUrlHost(raw, host);
    WwwExampleFacts(host);
    RootDomainTwoLabels("example", "com");
    NormalizeUrlHost(raw, 5, host);
  }

  lemma MobileHostFacts(raw: string)
    requires raw == "m.test.org"
    ensures raw != [] && !IsSpace(raw[0]) && !IsSpace(raw[|raw| - 1]) && IsHostText(raw)
    ensures StripPrefix(raw) == "test.org"
    ensures '.' !in "test" && '.' !in "org" && "test" + "." + "org" == "test.org"
  {
    assert raw[..4][0] != "www."[0] && raw[..2] == "m." && raw[2..] == "test.org";
  }

  /** `m.test.org` normalises to `test.org`. */
  lemma NormalizeMobileHost()
    ensures NormalizeDomain("m.test.org") == "test.org"
  {
    MobileHostFacts("m.test.org");
    RootDomainTwoLabels("test", "org");
    NormalizeBareHost("m.test.org");
  }

  lemma MultipartHostFacts(raw: string)
    requires raw == "sub.example.co.uk"
    ensures raw != [] && !IsSpace(raw[0]) && !IsSpace(raw[|raw| - 1]) && IsHostText(raw)
    ensures StripPrefix(raw) == raw
  {
    assert raw[..4][0] != "www."[0] && raw[..2][0] != "m."[0];
  }

  lemma FourLabelsTail(a: string, b: string, c: string, d: string)
    ensures LastLabels([a, b, c, d], 2) == c + "." + d
    ensures LastLabels([a, b, c, d], 3) == b + "." + c + "." + d
  {
    var parts := [a, b, c, d];
    assert parts[2..] == [c, d] && [c, d][1..] == [d];
    assert parts[1..] == [b, c, d] && [b, c, d][1..] == [c, d];
    assert Join([c, d]) == c + "." + d;
    assert Join([b, c, d]) == b + "." + Join([c, d]);
  }

  /** Four labels whose last two form a known suffix keep their last three. */
  lemma RootDomainFourLabels(a: string, b: string, c: string, d: string)
    requires '.' !in a && '.' !in b && '.' !in c && '.' !in d && c + "." + d in MultipartTlds
    ensures RootDomain(a + "." + b + "." + c + "." + d) == b + "." + c + "." + d
  {
    var three := b + "." + c + "." + d;
    var host := a + "." + three;
    var parts := [a, b, c, d];
    assert host == a + "." + b + "." + c + "." + d;
    assert Split(host) == parts by {
      SplitDot(a, three);
      ThreeLabels(b, c, d);
    }
    FourLabelsTail(a, b, c, d);
  }

  lemma MultipartLabelFacts()
    ensures '.' !in "sub" && '.' !in "example" && '.' !in "co" && '.' !in "uk" && "co" + "." + "uk" in MultipartTlds
    ensures "sub" + "." + "example" + "." + "co" + "." + "uk" == "sub.example.co.uk"
    ensures "example" + "." + "co" + "." + "uk" == "example.co.uk"
  {
    assert "co" + "." + "uk" == "co.uk";
  }

  /** `sub.example.co.uk` normalises to `example.co.uk`: the suffix `co.uk` takes a third label. */
  lemma NormalizeMultipartHost()
    ensures NormalizeDomain("sub.example.co.uk") == "example.co.uk"
  {
    var raw := "sub.example.co.uk";
    MultipartHostFacts(raw);
    MultipartLabelFacts();
    RootDomainFourLabels("sub", "example", "co", "uk");
    NormalizeBareHost(raw);
  }

  lemma EmailFacts(raw: string)
    requires raw == "user@example.com"
    ensures Lower(Strip(raw)) == raw
  {
    assert !IsSpace(raw[0]) && !IsSpace(raw[|raw| - 1]);
    StripFixed(raw);
    assert IsLowercase(raw);
    LowerSpec(raw);
  }

  lemma EmailShape(raw: string)
    requires raw == "user@example.com"
    ensures '@' in raw && !Contains(raw, "://")
  {
    assert raw[4] == '@';
    assert ':' !in raw;
    NotContainsChar(raw, "://");
  }

  /** `user@example.com` has an `@` and no scheme, so it normalises to the empty string. */
  lemma NormalizeEmail()
    ensures NormalizeDomain("user@example.com") == ""
  {
    EmailFacts("user@example.com");
    EmailShape("user@example.com");
  }

  // ---------------------------------------------------------------------------
  // extract_domains

  /**
   * One entry of `items` of a decoded vault. `uris` is None where the item has
   * no `login`, a null or empty `login`, or no (or a null) `uris` list; each URI
   * entry is None where the entry is null, has no `uri` key or a null `uri`.
   */
  datatype Item = Item(uris: Option<seq<Option<string>>>)

  /** A decoded vault; `items` is empty where the vault has none. */
  datatype Export = Export(items: seq<Item>)

  /** `login.get("uris") or []`. */
  function UrisOf(item: Item): seq<Option<string>> {
    item.uris.GetOr([])
  }

  /** `(u or {}).get("uri", "")`, a missing value read as the empty string. */
  function RawUri(u: Option<string>): string {
    u.GetOr("")
  }

  /** The value `normalize` gives every URI entry, in order. */
  function NormalizedUris(us: seq<Option<string>>, normalize: string -> string): (r: seq<string>)
    ensures |r| == |us| && forall k :: 0 <= k < |us| ==> r[k] == normalize(RawUri(us[k]))
  {
    if us == [] then []
    else NormalizedUris(us[..|us| - 1], normalize) + [normalize(RawUri(us[|us| - 1]))]
  }

  /** The value `normalize` gives every URI of every item, item by item. */
  function Candidates(items: seq<Item>, normalize: string -> string): seq<string>
  {
    if items == [] then []
    else Candidates(items[..|items| - 1], normalize) + NormalizedUris(UrisOf(items[|items| - 1]), normalize)
  }

  /** What `extract_domains` returns. */
  function Extracted(vault: Export): seq<string> {
    DistinctNonEmpty(Candidates(vault.items, NormalizeDomain))
  }

  /**
   * `extract_domains` on a decoded export: every URI of every item is
   * normalised, and a non-empty result not seen before is appended.
   */
  method ExtractDomains(vault: Export) returns (ordered: seq<string>)
    ensures ordered == Extracted(vault)
  {
    ordered := CollectDomains(vault, NormalizeDomain);
  }

  lemma NormalizedUrisSnoc(uris: seq<Option<string>>, j: nat, normalize: string -> string)
    requires j < |uris|
    ensures NormalizedUris(uris[..j + 1], normalize) == NormalizedUris(uris[..j], normalize) + [normalize(RawUri(uris[j]))]
  {
    assert uris[..j + 1][..j] == uris[..j];
  }

  lemma CandidatesSnoc(items: seq<Item>, i: nat, normalize: string -> string)
    requires i < |items|
    ensures Candidates(items[..i + 1], normalize) == Candidates(items[..i], normalize) + NormalizedUris(UrisOf(items[i]), normalize)
  {
    assert items[..i + 1][..i] == items[..i];
  }

  /** One step of the `seen` loop: a new non-empty value is appended, any other is skipped. */
  lemma SeenStep(acc: seq<string>, dom: string, ordered: seq<string>, seen: set<string>)
    requires ordered == DistinctNonEmpty(acc) && forall x :: x in seen <==> x in ordered
    ensures dom != "" && dom !in seen ==> DistinctNonEmpty(acc + [dom]) == ordered + [dom]
    ensures !(dom != "" && dom !in seen) ==> DistinctNonEmpty(acc + [dom]) == ordered
  {
    DistinctNonEmptySnoc(acc, dom);
  }

  /**
   * The inner loop of `extract_domains`: the URIs of one item are normalised
   * in turn, and each non-empty domain not in `seen` is recorded.
   */
  method CollectUris(uris: seq<Option<string>>, normalize: string -> string, ghost done: seq<string>,
                     ordered0: seq<string>, seen0: set<string>)
    returns (ordered: seq<string>, seen: set<string>)
    requires ordered0 == DistinctNonEmpty(done) && forall x :: x in seen0 <==> x in ordered0
    ensures ordered == DistinctNonEmpty(done + NormalizedUris(uris, normalize))
    ensures forall x :: x in seen <==> x in ordered
  {
    ordered, seen := ordered0, seen0;
    ghost var acc := done;
    var j := 0;
    assert uris[..0] == [];
    while j < |uris|
      invariant 0 <= j <= |uris|
      invariant acc == done + NormalizedUris(uris[..j], normalize)
      invariant ordered == DistinctNonEmpty(acc)
      invariant forall x :: x in seen <==> x in ordered
    {
      var dom := normalize(RawUri(uris[j]));
      NormalizedUrisSnoc(uris, j, normalize);
      assert acc + [dom] == done + NormalizedUris(uris[..j + 1], normalize);
      SeenStep(acc, dom, ordered, seen);
      if dom != "" && dom !in seen {
        seen := seen + {dom};
        ordered := ordered + [dom];
      }
      acc := acc + [dom];
      j := j + 1;
    }
    assert uris[..j] == uris;
  }

  /** The loops of `extract_domains`, for any normaliser. */
  method CollectDomains(vault: Export, normalize: string -> string) returns (ordered: seq<string>)
    ensures ordered == DistinctNonEmpty(Candidates(vault.items, normalize))
  {
    var items := vault.items;
    var seen: set<string> := {};
    ordered := [];
    var i := 0;
    while i < |items|
      invariant 0 <= i <= |items|
      invariant ordered == DistinctNonEmpty(Candidates(items[..i], normalize))
      invariant forall x :: x in seen <==> x in ordered
    {
      ordered, seen := CollectUris(UrisOf(items[i]), normalize, Candidates(items[..i], normalize), ordered, seen);
      CandidatesSnoc(items, i, normalize);
      i := i + 1;
    }
    assert items[..i] == items;
  }

  /** Some URI of some item normalises to `x`. */
  ghost predicate SomeUriGives(items: seq<Item>, normalize: string -> string, x: string) {
    exists i, j :: 0 <= i < |items| && 0 <= j < |UrisOf(items[i])| && normalize(RawUri(UrisOf(items[i])[j])) == x
  }

  lemma CandidateHasUri(items: seq<Item>, normalize: string -> string, x: string)
    requires x in Candidates(items, normalize)
    ensures SomeUriGives(items, normalize, x)
    decreases |items|
  {
    var n := |items| - 1;
    var init := items[..n];
    if x in Candidates(init, normalize) {
      CandidateHasUri(init, normalize, x);
      var i, j :| 0 <= i < |init| && 0 <= j < |UrisOf(init[i])| && normalize(RawUri(UrisOf(init[i])[j])) == x;
      assert items[i] == init[i];
    } else {
      var last := NormalizedUris(UrisOf(items[n]), normalize);
      assert x in last;
      var j :| 0 <= j < |last| && last[j] == x;
      assert 0 <= n < |items| && 0 <= j < |UrisOf(items[n])| && normalize(RawUri(UrisOf(items[n])[j])) == x;
    }
  }

  lemma UriIsCandidate(items: seq<Item>, normalize: string -> string, x: string, i: nat, j: nat)
    requires i < |items| && j < |UrisOf(items[i])| && normalize(RawUri(UrisOf(items[i])[j])) == x
    ensures x in Candidates(items, normalize)
    decreases |items|
  {
    var n := |items| - 1;
    var init := items[..n];
    if i < n {
      assert init[i] == items[i];
      UriIsCandidate(init, normalize, x, i, j);
    } else {
      var last := NormalizedUris(UrisOf(items[n]), normalize);
      assert last[j] == x;
    }
  }

  /** A value is a candidate exactly when `normalize` takes some URI of some item to it. */
  lemma CandidatesMembership(items: seq<Item>, normalize: string -> string, x: string)
    ensures x in Candidates(items, normalize) <==>
      exists i, j :: 0 <= i < |items| && 0 <= j < |UrisOf(items[i])| && normalize(RawUri(UrisOf(items[i])[j])) == x
  {
    if x in Candidates(items, normalize) {
      CandidateHasUri(items, normalize, x);
    }
    if SomeUriGives(items, normalize, x) {
      var i, j :| 0 <= i < |items| && 0 <= j < |UrisOf(items[i])| && normalize(RawUri(UrisOf(items[i])[j])) == x;
      UriIsCandidate(items, normalize, x, i, j);
    }
  }

  /**
   * The extracted domains have no duplicates and no empty string, and they
   * are exactly the non-empty normalised values of the URIs of the export.
   */
  lemma ExtractedContents(vault: Export, x: string)
    ensures NoDuplicates(Extracted(vault)) && "" !in Extracted(vault)
    ensures x in Extracted(vault) <==>
      x != "" && exists i, j :: 0 <= i < |vault.items| && 0 <= j < |UrisOf(vault.items[i])|
                               && NormalizeDomain(RawUri(UrisOf(vault.items[i])[j])) == x
  {
    CandidatesMembership(vault.items, NormalizeDomain, x);
  }

  /** The extracted domains come in the order in which each was first produced. */
  lemma ExtractedOrder(vault: Export, i: nat, j: nat)
    requires i < j < |Extracted(vault)|
    ensures var c := Candidates(vault.items, NormalizeDomain);
      FirstIndex(c, Extracted(vault)[i]) < FirstIndex(c, Extracted(vault)[j])
  {
    FirstSeenOrder(Candidates(vault.items, NormalizeDomain), i, j);
  }

  /** An export with no items yields no domains. */
  lemma ExtractedEmpty()
    ensures Extracted(Export([])) == []
  {
  }

  /** One item with two URI entries yields their two normalised values. */
  lemma CandidatesOfPair(u: Option<string>, v: Option<string>, normalize: string -> string)
    ensures Candidates([Item(Some([u, v]))], normalize) == [normalize(RawUri(u)), normalize(RawUri(v))]
  {
    var us := [u, v];
    assert us[..1] == [u] && us[..1][..0] == [];
    assert [Item(Some(us))][..0] == [];
  }

  /** Two different non-empty values are kept, in order. */
  lemma DistinctPair(a: string, b: string)
    requires a != "" && b != "" && a != b
    ensures DistinctNonEmpty([a, b]) == [a, b]
  {
    DistinctNonEmptyFixed([a, b]);
  }

  /** The two-URI sample yields `example.com` and then `test.org`. */
  lemma ExtractedSample()
    ensures Extracted(Export([Item(Some([Some("https://example.com"), Some("https://test.org")]))])) == ["example.com", "test.org"]
  {
    CandidatesOfPair(Some("https://example.com"), Some("https://test.org"), NormalizeDomain);
    NormalizeExampleCom();
    NormalizeTestOrg();
    assert |"test.org"| != |"example.com"|;
    DistinctPair("example.com", "test.org");
  }
}
