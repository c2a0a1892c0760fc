/** The allow-list that decides which senders may use the clipboard bridge
    (src/chatwebpage.cpp), and the guest-side test the injected script runs
    before it installs itself (src/chatview.cpp). */
module Trust {
  import opened Strings

  /** The service's apex domain, its corporate domain and its static-asset domain. */
  const ServiceDomain: string := "chatgpt.com"
  const CorporateDomain: string := "openai.com"
  const StaticDomain: string := "oaistatic.com"

  predicate IsAllowedDomain(d: string) {
    d == ServiceDomain || d == CorporateDomain || d == StaticDomain
  }

  /** The normalized host is the domain itself or ends with "." and the domain. */
  predicate MatchesDomain(normalized: string, domain: string) {
    normalized == domain || EndsWith(normalized, "." + domain)
  }

  /** IsTrustedClipboardHost. */
  predicate IsTrustedClipboardHost(host: string) {
    if host == [] then false
    else
      var normalized := ToLowerAscii(host);
      MatchesDomain(normalized, ServiceDomain)
      || MatchesDomain(normalized, CorporateDomain)
      || MatchesDomain(normalized, StaticDomain)
  }

  /** The guest's test `/(^|\.)domain$/i.test(host)`: some position p of the host
      is its start or follows a dot, and the rest of the host from p is the
      domain, ignoring ASCII case (the only case folding a non-Unicode JavaScript
      regular expression applies to an ASCII pattern). */
  predicate RegexMatchesDomain(host: string, domain: string) {
    exists p :: 0 <= p <= |host| && (p == 0 || host[p - 1] == '.')
                && ToLowerAscii(host[p..]) == ToLowerAscii(domain)
  }

  /** The injected script's `trusted` test on window.location.hostname. */
  predicate ScriptTrustsHost(host: string) {
    RegexMatchesDomain(host, ServiceDomain)
    || RegexMatchesDomain(host, CorporateDomain)
    || RegexMatchesDomain(host, StaticDomain)
  }

  lemma AllowedDomainsAreLower(d: string)
    requires IsAllowedDomain(d)
    ensures IsLowerAscii(d) && ToLowerAscii(d) == d && |d| >= 10
  {
  }

  lemma RegexImpliesSuffixTest(host: string, domain: string, p: int)
    requires IsLowerAscii(domain)
    requires 0 <= p <= |host| && (p == 0 || host[p - 1] == '.')
    requires ToLowerAscii(host[p..]) == ToLowerAscii(domain)
    ensures MatchesDomain(ToLowerAscii(host), domain)
  {
    ToLowerAsciiFixes(domain);
    var n := ToLowerAscii(host);
    ToLowerAsciiSlice(host, p);
    assert n[p..] == domain;
    if p == 0 {
      assert n == n[p..];
    } else {
      assert n[p - 1] == '.';
      assert n[p - 1..] == [n[p - 1]] + n[p..];
      assert |n| - |"." + domain| == p - 1;
    }
  }

  lemma RegexWitness(host: string, domain: string, p: int)
    requires 0 <= p <= |host| && (p == 0 || host[p - 1] == '.')
    requires ToLowerAscii(host[p..]) == ToLowerAscii(domain)
    ensures RegexMatchesDomain(host, domain)
  {
  }

  lemma SuffixTestImpliesRegex(host: string, domain: string)
    requires IsLowerAscii(domain)
    requires MatchesDomain(ToLowerAscii(host), domain)
    ensures RegexMatchesDomain(host, domain)
  {
    ToLowerAsciiFixes(domain);
    var n := ToLowerAscii(host);
    if n == domain {
      assert host[0..] == host;
      RegexWitness(host, domain, 0);
    } else {
      var p := |host| - |domain|;
      assert n[p - 1..] == "." + domain;
      assert n[p - 1] == '.' && n[p..] == domain;
      assert host[p - 1] == '.';
      ToLowerAsciiSlice(host, p);
      RegexWitness(host, domain, p);
    }
  }

  /** One domain: the guest's regular expression and the host's comparison agree. */
  lemma RegexAgreesWithSuffixTest(host: string, domain: string)
    requires IsAllowedDomain(domain)
    ensures RegexMatchesDomain(host, domain) <==> MatchesDomain(ToLowerAscii(host), domain)
  {
    AllowedDomainsAreLower(domain);
    if RegexMatchesDomain(host, domain) {
      var p :| 0 <= p <= |host| && (p == 0 || host[p - 1] == '.')
               && ToLowerAscii(host[p..]) == ToLowerAscii(domain);
      RegexImpliesSuffixTest(host, domain, p);
    }
    if MatchesDomain(ToLowerAscii(host), domain) {
      SuffixTestImpliesRegex(host, domain);
    }
  }

  /** The guest script installs itself exactly on the hosts the host trusts,
      so the page the bridge answers and the pages that send to it are the same. */
  lemma ScriptAndHostAgree(host: string)
    ensures ScriptTrustsHost(host) == IsTrustedClipboardHost(host)
  {
    RegexAgreesWithSuffixTest(host, ServiceDomain);
    RegexAgreesWithSuffixTest(host, CorporateDomain);
    RegexAgreesWithSuffixTest(host, StaticDomain);
  }

  /** A trusted host is at least as long as the shortest allowed domain, so
      in particular the empty host is never trusted. */
  lemma TrustedHostIsLongEnough(host: string)
    requires IsTrustedClipboardHost(host)
    ensures |host| >= |CorporateDomain| && host != []
  {
    var n := ToLowerAscii(host);
    assert |n| == |host|;
    if MatchesDomain(n, ServiceDomain) {
    } else if MatchesDomain(n, CorporateDomain) {
    } else {
      assert MatchesDomain(n, StaticDomain);
    }
  }

  /** Trust is decided without regard to ASCII case. */
  lemma TrustIgnoresCase(a: string, b: string)
    requires ToLowerAscii(a) == ToLowerAscii(b)
    ensures IsTrustedClipboardHost(a) == IsTrustedClipboardHost(b)
  {
    assert |a| == |b|;
  }

  lemma SubdomainMatches(normalized: string, sub: string, domain: string)
    requires MatchesDomain(normalized, domain)
    ensures MatchesDomain(sub + "." + normalized, domain)
  {
    var longer := sub + "." + normalized;
    if normalized == domain {
      assert longer == (sub + ".") + domain;
      assert longer[|longer| - |"." + domain|..] == "." + domain;
    } else {
      assert longer == (sub + ".") + normalized;
      assert longer[|longer| - |normalized|..] == normalized;
      assert longer[|longer| - |"." + domain|..] == normalized[|normalized| - |"." + domain|..];
    }
  }

  /** Any subdomain of a trusted host, on a dot boundary, is trusted. */
  lemma SubdomainOfTrustedIsTrusted(sub: string, host: string)
    requires IsTrustedClipboardHost(host)
    ensures IsTrustedClipboardHost(sub + "." + host)
  {
    ToLowerAsciiConcat(sub + ".", host);
    ToLowerAsciiConcat(sub, ".");
    assert ToLowerAscii(".") == ".";
    var n := ToLowerAscii(host);
    assert ToLowerAscii(sub + "." + host) == ToLowerAscii(sub) + "." + n;
    if MatchesDomain(n, ServiceDomain) {
      SubdomainMatches(n, ToLowerAscii(sub), ServiceDomain);
    } else if MatchesDomain(n, CorporateDomain) {
      SubdomainMatches(n, ToLowerAscii(sub), CorporateDomain);
    } else {
      SubdomainMatches(n, ToLowerAscii(sub), StaticDomain);
    }
  }

  /** The fifth character from the end tells the three domains apart. */
  function Mark(d: string): char
    requires |d| >= 5
  {
    d[|d| - 5]
  }

  /** Matching a domain fixes the mark of the name. */
  lemma MarkOfMatch(normalized: string, domain: string)
    requires IsAllowedDomain(domain) && |normalized| >= 5
    ensures MatchesDomain(normalized, domain) ==> Mark(normalized) == Mark(domain)
  {
    var t := "." + domain;
    if normalized != domain && EndsWith(normalized, t) {
      assert normalized[|normalized| - |t|..] == t;
      assert normalized[|normalized| - 5] == t[|t| - 5];
    }
  }

  lemma EndsWithSeesMark(n: string, domain: string)
    requires IsAllowedDomain(domain) && EndsWith(n, domain)
    ensures |n| >= 5 && Mark(n) == Mark(domain)
  {
    assert n[|n| - |domain|..] == domain;
    assert n[|n| - 5] == domain[|domain| - 5];
  }

  /** A name ending with one allowed domain matches no other allowed domain. */
  lemma OnlyItsOwnDomain(n: string, domain: string, other: string)
    requires IsAllowedDomain(domain) && IsAllowedDomain(other) && domain != other
    requires EndsWith(n, domain)
    ensures !MatchesDomain(n, other)
  {
    EndsWithSeesMark(n, domain);
    MarkOfMatch(n, other);
  }

  /** The name front + domain matches domain only with a dot at the end of front. */
  lemma OwnDomainNeedsDot(front: string, domain: string)
    requires IsAllowedDomain(domain)
    requires |front| > 0 && front[|front| - 1] != '.'
    ensures !MatchesDomain(front + domain, domain)
  {
    var n := front + domain;
    var k := |front| - 1;
    assert n[k] == front[k];
    assert |n| - |"." + domain| == k;
    assert n[k..][0] == n[k];
  }

  /** A host that merely ends with an allowed domain, without a dot before it,
      is not trusted: "evilchatgpt.com" is refused. */
  lemma LookalikeRejected(x: string, domain: string)
    requires IsAllowedDomain(domain)
    requires |x| > 0 && x[|x| - 1] != '.'
    ensures !IsTrustedClipboardHost(x + domain)
  {
    AllowedDomainsAreLower(domain);
    ToLowerAsciiConcat(x, domain);
    var front := ToLowerAscii(x);
    var n := front + domain;
    assert ToLowerAscii(x + domain) == n;
    assert front[|front| - 1] == LowerChar(x[|x| - 1]);
    OwnDomainNeedsDot(front, domain);
    EndsWithConcat(front, domain);
    if domain != ServiceDomain { OnlyItsOwnDomain(n, domain, ServiceDomain); }
    if domain != CorporateDomain { OnlyItsOwnDomain(n, domain, CorporateDomain); }
    if domain != StaticDomain { OnlyItsOwnDomain(n, domain, StaticDomain); }
  }

  /** Each allowed domain is itself a trusted host. */
  lemma ApexTrusted(domain: string)
    requires IsAllowedDomain(domain)
    ensures IsTrustedClipboardHost(domain)
  {
    AllowedDomainsAreLower(domain);
  }

  lemma ExampleServiceSubdomainTrusted()
    ensures IsTrustedClipboardHost("chat.chatgpt.com")
  {
    ApexTrusted(ServiceDomain);
    assert "chat.chatgpt.com" == "chat" + "." + ServiceDomain;
    SubdomainOfTrustedIsTrusted("chat", ServiceDomain);
  }

  lemma LowerOfExample()
    ensures ToLowerAscii("CDN.OAISTATIC.COM") == "cdn" + "." + StaticDomain
  {
    var upper, h := "CDN.OAISTATIC.COM", "cdn" + "." + StaticDomain;
    assert |h| == |upper|;
    assert forall i | 0 <= i < |h| :: LowerChar(upper[i]) == h[i];
  }

  lemma ExampleUpperCaseTrusted()
    ensures IsTrustedClipboardHost("CDN.OAISTATIC.COM")
  {
    var h := "cdn" + "." + StaticDomain;
    ApexTrusted(StaticDomain);
    SubdomainOfTrustedIsTrusted("cdn", StaticDomain);
    LowerOfExample();
    ToLowerAsciiIdempotent("CDN.OAISTATIC.COM");
    TrustIgnoresCase("CDN.OAISTATIC.COM", h);
  }

  lemma ExampleLookalikeRejected()
    ensures !IsTrustedClipboardHost("evilchatgpt.com")
  {
    assert "evilchatgpt.com" == "evil" + ServiceDomain;
    LookalikeRejected("evil", ServiceDomain);
  }

  /** A host whose fifth character from the end is none of the three marks,
      in either case, matches no allowed domain. */
  lemma ForeignMarkRejected(host: string)
    requires |host| >= 5
    requires LowerChar(host[|host| - 5]) !in {'t', 'i', 'c'}
    ensures !IsTrustedClipboardHost(host)
  {
    var n := ToLowerAscii(host);
    assert Mark(n) == LowerChar(host[|host| - 5]);
    MarkOfMatch(n, ServiceDomain);
    MarkOfMatch(n, CorporateDomain);
    MarkOfMatch(n, StaticDomain);
  }

  lemma ExampleTrustedPrefixRejected()
    ensures !IsTrustedClipboardHost("chatgpt.com.evil.net")
  {
    var h := "chatgpt.com.evil.net";
    assert h[|h| - 5] == 'l';
    ForeignMarkRejected(h);
  }

  /** The parts of a QUrl the origin check reads: whether it parsed, its scheme,
      its host, and its full text as toString() renders it. */
  datatype Url = Url(valid: bool, scheme: string, host: string, text: string)

  const BlobHttpsPrefix: string := "blob:https://"

  const AuthorityDelimiters: set<char> := {'/', '?', '#'}

  /** The host of the URL "https://" + rest: the authority stops at the first
      '/', '?' or '#'. This cut drops everything up to the last '@' and
      everything from the first ':' after it. QUrl's own rule differs: its
      authority parser ends the user information at the FIRST '@', starts the
      port at the LAST ':', and rejects the URL when the host left over still
      holds an '@' or a ':'. The two agree when the authority holds at most
      one '@' and at most one ':' after it, and in particular on a host
      holding neither (EmbeddedHostOf); an authority such as "a@b@chatgpt.com"
      or "chatgpt.com:1:2" gives this model a trusted host where QUrl gives an
      invalid URL. IPv6 literals are not modelled. */
  function EmbeddedHost(rest: string): string {
    var authority := PrefixUntil(rest, AuthorityDelimiters);
    PrefixUntil(AfterLast(authority, '@'), {':'})
  }

  /** IsTrustedClipboardOrigin; pageHost is the host of the page's current URL. */
  predicate IsTrustedClipboardOrigin(origin: Url, pageHost: string) {
    if origin.valid && origin.scheme == "https" then
      IsTrustedClipboardHost(origin.host)
    else if origin.valid && origin.scheme == "blob" && StartsWith(origin.text, BlobHttpsPrefix) then
      IsTrustedClipboardHost(EmbeddedHost(origin.text[|BlobHttpsPrefix|..]))
    else if origin.scheme == "about" || origin.scheme == "data" || origin.scheme == "" then
      IsTrustedClipboardHost(pageHost)
    else
      IsTrustedClipboardHost(pageHost)
  }

  /** A host name H holding no delimiter is read back from "H" + tail when
      the tail is empty or starts a path, query or fragment. */
  lemma EmbeddedHostOf(h: string, tail: string)
    requires forall i :: 0 <= i < |h| ==> h[i] !in AuthorityDelimiters + {'@', ':'}
    requires tail == [] || tail[0] in AuthorityDelimiters
    ensures EmbeddedHost(h + tail) == h
  {
    PrefixUntilStopsAt(h, tail, AuthorityDelimiters);
    AfterLastAbsent(h, '@');
    assert h + [] == h;
    PrefixUntilStopsAt(h, [], {':'});
  }

  /** A blob origin "blob:https://H/..." is trusted exactly when its wrapped host H is. */
  lemma BlobOriginJudgedByWrappedHost(origin: Url, h: string, tail: string, pageHost: string)
    requires origin.valid && origin.scheme == "blob"
    requires origin.text == BlobHttpsPrefix + h + tail
    requires forall i :: 0 <= i < |h| ==> h[i] !in AuthorityDelimiters + {'@', ':'}
    requires tail == [] || tail[0] in AuthorityDelimiters
    ensures IsTrustedClipboardOrigin(origin, pageHost) == IsTrustedClipboardHost(h)
  {
    assert origin.text == BlobHttpsPrefix + (h + tail);
    StartsWithConcat(BlobHttpsPrefix, h + tail);
    EmbeddedHostOf(h, tail);
  }

  /** An https origin is judged by its own host, whatever page is shown. */
  lemma HttpsOriginJudgedByItsHost(origin: Url, pageHost: string)
    requires origin.valid && origin.scheme == "https"
    ensures IsTrustedClipboardOrigin(origin, pageHost) == IsTrustedClipboardHost(origin.host)
  {
  }

  /** about:, data:, an empty scheme, any other scheme, an invalid URL and a blob
      URL that does not wrap https are all judged by the current page's host. */
  lemma OtherOriginsJudgedByPageHost(origin: Url, pageHost: string)
    requires !(origin.valid && origin.scheme == "https")
    requires !(origin.valid && origin.scheme == "blob" && StartsWith(origin.text, BlobHttpsPrefix))
    ensures IsTrustedClipboardOrigin(origin, pageHost) == IsTrustedClipboardHost(pageHost)
  {
  }
}
