/**
 * The app's `DnsManager`: a provider table, the current provider and
 * enabled flag, and the choice between the system resolver and a
 * DNS-over-HTTPS one. Building the DNS-over-HTTPS client is an oracle that
 * may fail, in which case the system resolver is used.
 */
module Dns {
  import opened Wrappers
  import opened Text

  datatype Provider = System | Cloudflare | Google | Quad9

  /** The enum constant's `name`. */
  function Name(p: Provider): string {
    match p
    case System => "SYSTEM"
    case Cloudflare => "CLOUDFLARE"
    case Google => "GOOGLE"
    case Quad9 => "QUAD9"
  }

  function DisplayName(p: Provider): string {
    match p
    case System => "System Default"
    case Cloudflare => "Cloudflare"
    case Google => "Google"
    case Quad9 => "Quad9"
  }

  function DohUrl(p: Provider): string {
    match p
    case System => ""
    case Cloudflare => "https://cloudflare-dns.com/dns-query"
    case Google => "https://dns.google/dns-query"
    case Quad9 => "https://dns.quad9.net/dns-query"
  }

  function BootstrapIps(p: Provider): seq<string> {
    match p
    case System => []
    case Cloudflare => ["1.1.1.1", "1.0.0.1"]
    case Google => ["8.8.8.8", "8.8.4.4"]
    case Quad9 => ["9.9.9.9", "149.112.112.112"]
  }

  /** `DnsProvider.valueOf(name)`: the constant with exactly that name, or none (the exception). */
  function ValueOf(name: string): (r: Option<Provider>)
    ensures r.Some? ==> Name(r.value) == name
    ensures r.None? ==> forall p: Provider :: Name(p) != name
  {
    if name == "SYSTEM" then Some(System)
    else if name == "CLOUDFLARE" then Some(Cloudflare)
    else if name == "GOOGLE" then Some(Google)
    else if name == "QUAD9" then Some(Quad9)
    else None
  }

  /** The manager's two settings. */
  datatype Settings = Settings(provider: Provider, enabled: bool)

  const Initial: Settings := Settings(System, false)

  /** `updateSettings`: the upper-cased name picks the provider; an unknown name resets to SYSTEM, disabled. */
  function UpdateSettings(st: Settings, providerName: string, enabled: bool): (r: Settings)
    ensures ValueOf(ToUpper(providerName)).None? ==> r == Initial
  {
    match ValueOf(ToUpper(providerName))
    case None => Initial
    case Some(p) => Settings(p, enabled)
  }

  datatype Resolver = SystemDns | DohDns(provider: Provider)

  /** `createDns`: DNS-over-HTTPS only when enabled with a provider other than SYSTEM and the client builds. */
  function CreateDns(st: Settings, dohFails: bool): Resolver {
    if st.enabled && st.provider != System && !dohFails then DohDns(st.provider) else SystemDns
  }

  datatype SettingValue = Str(s: string) | Bool(b: bool)

  /** `getCurrentSettings`. */
  function CurrentSettings(st: Settings): map<string, SettingValue> {
    map["provider" := Str(Name(st.provider)), "enabled" := Bool(st.enabled), "dohUrl" := Str(DohUrl(st.provider))]
  }

  /** The names are distinct, each reads back to its provider, and only SYSTEM has no URL and no bootstrap addresses. */
  lemma NamesRoundTrip(p: Provider, q: Provider)
    ensures ValueOf(Name(p)) == Some(p)
    ensures Name(p) == Name(q) ==> p == q
    ensures DohUrl(p) == "" <==> p == System
    ensures |BootstrapIps(p)| == 0 <==> p == System
  {
  }

  lemma UpperOfName(p: Provider)
    ensures ToUpper(Name(p)) == Name(p)
  {
    var n := Name(p);
    forall i | 0 <= i < |n| ensures UpperChar(n[i]) == n[i] {
    }
  }

  /** A name selects provider `p` exactly when it equals `p`'s enum name up to case. */
  lemma CaseInsensitiveMatch(providerName: string, p: Provider)
    ensures ValueOf(ToUpper(providerName)) == Some(p) <==> EqualsIgnoreCase(providerName, Name(p))
  {
    UpperOfName(p);
  }

  /** The settings after an update depend only on that update, never on the ones before. */
  lemma LastUpdateWins(st: Settings, st': Settings, providerName: string, enabled: bool)
    ensures UpdateSettings(st, providerName, enabled) == UpdateSettings(st', providerName, enabled)
    ensures var r := UpdateSettings(st, providerName, enabled);
      r.enabled ==> enabled && EqualsIgnoreCase(providerName, Name(r.provider))
  {
    var r := UpdateSettings(st, providerName, enabled);
    if r.enabled {
      CaseInsensitiveMatch(providerName, r.provider);
    }
  }

  /** Mixed case selects the provider, as `"GoOgLe"` does GOOGLE; an unknown name disables, whatever the flag. */
  lemma UpdateExamples(st: Settings)
    ensures UpdateSettings(st, "GoOgLe", true) == Settings(Google, true)
    ensures UpdateSettings(st, "cloudflare", true) == Settings(Cloudflare, true)
    ensures UpdateSettings(st, "INVALID_PROVIDER", true) == Initial
  {
    assert ToUpper("GoOgLe") == "GOOGLE";
    assert ToUpper("cloudflare") == "CLOUDFLARE";
    var u := ToUpper("INVALID_PROVIDER");
    assert u[0] == 'I';
  }

  /** The system resolver is used unless enabled with a non-SYSTEM provider whose client builds. */
  lemma CreateDnsChoice(st: Settings, dohFails: bool)
    ensures CreateDns(st, dohFails).DohDns? <==> st.enabled && st.provider != System && !dohFails
    ensures CreateDns(st, dohFails).DohDns? ==> CreateDns(st, dohFails).provider == st.provider && DohUrl(st.provider) != ""
    ensures CreateDns(Initial, dohFails) == SystemDns
  {
  }

  /** The settings map has exactly three keys, and its provider name and URL read back to the settings. */
  lemma SettingsReadBack(st: Settings)
    ensures var m := CurrentSettings(st);
      m.Keys == {"provider", "enabled", "dohUrl"}
      && m["provider"].Str? && ValueOf(m["provider"].s) == Some(st.provider)
      && m["enabled"] == Bool(st.enabled)
      && m["dohUrl"] == Str(DohUrl(st.provider))
  {
    NamesRoundTrip(st.provider, st.provider);
  }
}
