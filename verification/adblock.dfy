/**
 * The plugin's `AdBlocker`: a URL is an ad when its lower-cased host
 * contains any entry of a fixed list of ad, tracking and keyword entries.
 * Parsing the host out of a URL (`Uri.parse(url).host`) is an oracle.
 */
module AdBlock {
  import opened Wrappers
  import opened Text

  /** `AD_HOSTS`. */
  const AdHosts: seq<string> := [
    "doubleclick.net", "googleadservices.com", "googlesyndication.com", "adservice.google.com",
    "adnxs.com", "criteo.com", "rubiconproject.com", "taboola.com", "outbrain.com", "popads.net",
    "propellerads.com", "adroll.com", "adcolony.com", "unityads.unity3d.com", "applovin.com",
    "vungle.com", "chartboost.com", "flurry.com", "mopub.com", "tapjoy.com", "ironsrc.com",
    "google-analytics.com", "analytics.google.com", "googletagmanager.com", "facebook.com/tr",
    "connect.facebook.net",
    "bet365", "poker", "casino", "slot", "porn", "xxx", "sex", "adult"]

  /** The two checks on a lower-cased host: direct membership, then the substring loop. */
  function IsAdHost(host: string): bool {
    host in AdHosts || ContainsAnyFrom(host, AdHosts, 0)
  }

  /** `isAd(url)`. */
  function IsAd(url: Option<string>, hostOf: string -> Option<string>): bool {
    match url
    case None => false
    case Some(u) =>
      match hostOf(u)
      case None => false
      case Some(h) => IsAdHost(ToLower(h))
  }

  /** Every string contains itself. */
  lemma ContainsSelf(s: string)
    ensures Contains(s, s)
  {
    assert OccursAt(s, s, 0);
  }

  /** A host is an ad host iff some entry is a substring of it; direct membership is the special case of equality. */
  lemma AdHostIffSubstring(host: string)
    ensures IsAdHost(host) <==> exists j :: 0 <= j < |AdHosts| && Contains(host, AdHosts[j])
    ensures host in AdHosts ==> IsAdHost(host)
  {
    if host in AdHosts {
      var j :| 0 <= j < |AdHosts| && AdHosts[j] == host;
      ContainsSelf(host);
      assert Contains(host, AdHosts[j]);
    }
  }

  /** A null URL, or one without a host, is never an ad. */
  lemma NoHostNoAd(url: Option<string>, hostOf: string -> Option<string>)
    requires url.None? || hostOf(url.value).None?
    ensures !IsAd(url, hostOf)
  {
  }

  /** Matching ignores case: hosts that agree up to ASCII case get the same answer. */
  lemma CaseInsensitive(u: string, v: string, hostOf: string -> Option<string>)
    requires hostOf(u).Some? && hostOf(v).Some? && ToLower(hostOf(u).value) == ToLower(hostOf(v).value)
    ensures IsAd(Some(u), hostOf) == IsAd(Some(v), hostOf)
  {
  }

  /** A keyword entry flags any host that contains it, as `casino` does `www.casino-royal.com`. */
  lemma KeywordFlags(host: string, j: nat)
    requires 26 <= j < |AdHosts| && Contains(host, AdHosts[j])
    ensures IsAdHost(host)
  {
    AdHostIffSubstring(host);
  }

  lemma KeywordExample()
    ensures IsAdHost("www.casino-royal.com")
  {
    assert OccursAt("www.casino-royal.com", "casino", 4);
    KeywordFlags("www.casino-royal.com", 28);
  }

  /** The `facebook.com/tr` entry holds a `/`, so no host (which never holds one) can contain it. */
  lemma PathEntryNeverMatches(host: string)
    requires forall i :: 0 <= i < |host| ==> host[i] != '/'
    ensures !Contains(host, AdHosts[24])
  {
    var e := AdHosts[24];
    assert e[12] == '/';
    forall i ensures !OccursAt(host, e, i) {
      if 0 <= i && i + |e| <= |host| {
        assert host[i..i + |e|][12] == host[i + 12] != '/';
      }
    }
  }
}
