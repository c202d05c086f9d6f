/**
 * The cookie map that travels from the method channel to the download
 * worker: the manager serialises it to a `{"k":"v",...}` string for the
 * WorkManager input bag, the worker parses it back with a hand-rolled
 * parser and installs a cookie jar that filters on the request host.
 *
 * A Kotlin map is an insertion-ordered list of (key, value) pairs.
 */
module Cookies {
  import opened Wrappers
  import opened Text

  type Pairs = seq<(string, string)>

  predicate DistinctKeys(m: Pairs) {
    forall i, j :: 0 <= i < j < |m| ==> m[i].0 != m[j].0
  }

  predicate HasKey(m: Pairs, k: string) {
    exists i :: 0 <= i < |m| && m[i].0 == k
  }

  /** `map[k]`. */
  function Lookup(m: Pairs, k: string): (r: Option<string>)
    ensures r.Some? <==> HasKey(m, k)
  {
    if |m| == 0 then None
    else if m[0].0 == k then Some(m[0].1)
    else
      assert forall i :: 1 <= i < |m| ==> m[i] == m[1..][i - 1];
      Lookup(m[1..], k)
  }

  // ---------------------------------------------------------------------
  // LinkedHashMap construction (`toMap`)
  // ---------------------------------------------------------------------

  /** `put(k, v)`: an existing key keeps its position and takes the new value. */
  function Put(m: Pairs, k: string, v: string): (r: Pairs)
    ensures DistinctKeys(m) ==> DistinctKeys(r)
    ensures Lookup(r, k) == Some(v)
    ensures forall k' :: k' != k ==> Lookup(r, k') == Lookup(m, k')
  {
    if |m| == 0 then [(k, v)]
    else if m[0].0 == k then
      assert forall i :: 1 <= i < |m| ==> ([(k, v)] + m[1..])[i] == m[i];
      [(k, v)] + m[1..]
    else
      var tail := Put(m[1..], k, v);
      assert DistinctKeys(m) ==> !HasKey(tail, m[0].0) by {
        if DistinctKeys(m) {
          forall i | 0 <= i < |m[1..]| ensures m[1..][i].0 != m[0].0 {
            assert m[1..][i] == m[i + 1];
          }
        }
        assert Lookup(tail, m[0].0) == Lookup(m[1..], m[0].0);
      }
      assert DistinctKeys(m) ==> DistinctKeys(m[1..]) by {
        if DistinctKeys(m) {
          forall i, j | 0 <= i < j < |m[1..]| ensures m[1..][i].0 != m[1..][j].0 {
            assert m[1..][i] == m[i + 1] && m[1..][j] == m[j + 1];
          }
        }
      }
      [m[0]] + tail
  }

  lemma {:induction false} PutFresh(m: Pairs, k: string, v: string)
    requires !HasKey(m, k)
    ensures Put(m, k, v) == m + [(k, v)]
  {
    if |m| > 0 {
      assert !HasKey(m[1..], k) by {
        forall i | 0 <= i < |m[1..]| ensures m[1..][i].0 != k {
          assert m[1..][i] == m[i + 1];
        }
      }
      assert m[0].0 != k;
      calc {
        Put(m, k, v);
        [m[0]] + Put(m[1..], k, v);
        { PutFresh(m[1..], k, v); }
        [m[0]] + (m[1..] + [(k, v)]);
        m + [(k, v)];
      }
    }
  }

  /** The value the last pair with key `k` carries. */
  function LastValue(pairs: Pairs, k: string): Option<string> {
    if |pairs| == 0 then None
    else if pairs[|pairs| - 1].0 == k then Some(pairs[|pairs| - 1].1)
    else LastValue(pairs[..|pairs| - 1], k)
  }

  /** `List<Pair>.toMap()`: later duplicates overwrite earlier values. */
  function ToMap(pairs: Pairs): (r: Pairs)
    ensures DistinctKeys(r)
    ensures forall k :: Lookup(r, k) == LastValue(pairs, k)
  {
    if |pairs| == 0 then []
    else
      var last := pairs[|pairs| - 1];
      Put(ToMap(pairs[..|pairs| - 1]), last.0, last.1)
  }

  lemma {:induction false} ToMapDistinct(pairs: Pairs)
    requires DistinctKeys(pairs)
    ensures ToMap(pairs) == pairs
  {
    if |pairs| > 0 {
      var init := pairs[..|pairs| - 1];
      var last := pairs[|pairs| - 1];
      assert DistinctKeys(init);
      ToMapDistinct(init);
      assert !HasKey(init, last.0);
      PutFresh(init, last.0, last.1);
      assert init + [last] == pairs;
    }
  }

  // ---------------------------------------------------------------------
  // Serialisation (NativeDownloadManager.queueDownload)
  // ---------------------------------------------------------------------

  function EntryText(k: string, v: string): string {
    "\"" + k + "\":\"" + v + "\""
  }

  function EntryTexts(m: Pairs): (r: seq<string>)
    ensures |r| == |m|
    ensures forall i :: 0 <= i < |m| ==> r[i] == EntryText(m[i].0, m[i].1)
  {
    seq(|m|, i requires 0 <= i < |m| => EntryText(m[i].0, m[i].1))
  }

  /** `joinToString(",", "{", "}")` over the entries; a null map gives null. */
  function Serialize(m: Option<Pairs>): (r: Option<string>)
    ensures r.None? <==> m.None?
    ensures r.Some? ==> StartsWith(r.value, "{") && EndsWith(r.value, "}")
    ensures m == Some([]) ==> r == Some("{}")
  {
    match m
    case None => None
    case Some(pairs) =>
      assert |pairs| == 0 ==> "{" + Join(EntryTexts(pairs), ',') + "}" == "{}" by {
        if |pairs| == 0 { assert EntryTexts(pairs) == []; }
      }
      Some("{" + Join(EntryTexts(pairs), ',') + "}")
  }

  // ---------------------------------------------------------------------
  // Parsing (DownloadWorker.parseCookies)
  // ---------------------------------------------------------------------

  function Unquote(s: string): string {
    RemoveSurrounding(Trim(s), "\"", "\"")
  }

  /** One `key:value` entry; anything that does not split into exactly two parts is dropped. */
  function ParseEntry(entry: string): (r: Option<(string, string)>)
    ensures r.Some? <==> |Split(entry, ':')| == 2
  {
    var parts := Split(entry, ':');
    if |parts| == 2 then Some((Unquote(parts[0]), Unquote(parts[1]))) else None
  }

  /** `mapNotNull` of ParseEntry. */
  function ParseEntries(entries: seq<string>): (r: Pairs)
    ensures |r| <= |entries|
  {
    if |entries| == 0 then []
    else
      var rest := ParseEntries(entries[1..]);
      match ParseEntry(entries[0])
      case Some(p) => [p] + rest
      case None => rest
  }

  function ParseCookies(json: Option<string>): (r: Option<Pairs>)
    ensures json.None? || IsBlank(json.value) ==> r.None?
    ensures r.Some? ==> DistinctKeys(r.value)
  {
    if json.None? || IsBlank(json.value) then None
    else
      var body := RemoveSurrounding(Trim(json.value), "{", "}");
      if |body| == 0 then None
      else Some(ToMap(ParseEntries(Split(body, ','))))
  }

  /** Keys and values the format can carry: no entry or pair separator inside. */
  predicate Transportable(m: Pairs) {
    forall i :: 0 <= i < |m| ==> ',' !in m[i].0 && ':' !in m[i].0 && ',' !in m[i].1 && ':' !in m[i].1
  }

  lemma UnquoteQuoted(k: string)
    ensures Unquote("\"" + k + "\"") == k
  {
    var s := "\"" + k + "\"";
    TrimNoOp(s);
    RemoveSurroundingWrapped("\"", k, "\"");
  }

  lemma ParseEntryText(k: string, v: string)
    requires ':' !in k && ':' !in v
    ensures ParseEntry(EntryText(k, v)) == Some((k, v))
  {
    var a := "\"" + k + "\"";
    var b := "\"" + v + "\"";
    assert EntryText(k, v) == a + [':'] + b;
    assert ':' !in a && ':' !in b;
    SplitCons(a, ':', b);
    SplitNoDelimiter(b, ':');
    UnquoteQuoted(k);
    UnquoteQuoted(v);
  }

  lemma {:induction false} ParseEntryTexts(m: Pairs)
    requires Transportable(m)
    ensures ParseEntries(EntryTexts(m)) == m
  {
    if |m| > 0 {
      var e := EntryTexts(m);
      assert ParseEntry(e[0]) == Some(m[0]) by { ParseEntryText(m[0].0, m[0].1); }
      calc {
        ParseEntries(e);
        [m[0]] + ParseEntries(e[1..]);
        { assert e[1..] == EntryTexts(m[1..]); TransportableTail(m); ParseEntryTexts(m[1..]); }
        [m[0]] + m[1..];
        m;
      }
    }
  }

  lemma TransportableTail(m: Pairs)
    requires Transportable(m) && |m| > 0
    ensures Transportable(m[1..])
  {
    forall i | 0 <= i < |m[1..]| ensures ',' !in m[1..][i].0 && ':' !in m[1..][i].0 && ',' !in m[1..][i].1 && ':' !in m[1..][i].1 {
      assert m[1..][i] == m[i + 1];
    }
  }

  /** The worker reads back exactly the map the manager wrote, for any non-empty transportable map. */
  lemma RoundTrip(m: Pairs)
    requires |m| > 0 && DistinctKeys(m) && Transportable(m)
    ensures ParseCookies(Serialize(Some(m))) == Some(m)
  {
    var entries := EntryTexts(m);
    var inner := Join(entries, ',');
    var s := "{" + inner + "}";
    assert Serialize(Some(m)) == Some(s);
    assert !IsBlank(s) by { assert !IsWhitespace(s[0]); }
    TrimNoOp(s);
    RemoveSurroundingWrapped("{", inner, "}");
    assert |inner| > 0 by {
      assert entries[0] == EntryText(m[0].0, m[0].1);
      if |entries| == 1 { } else { assert |inner| >= |entries[0]|; }
    }
    forall i | 0 <= i < |entries| ensures ',' !in entries[i] {
      assert entries[i] == "\"" + m[i].0 + "\":\"" + m[i].1 + "\"";
    }
    SplitJoin(entries, ',');
    ParseEntryTexts(m);
    ToMapDistinct(m);
  }

  /** The empty map serialises to `{}`, which parses back to null. */
  lemma EmptyRoundTrip()
    ensures Serialize(Some([])) == Some("{}")
    ensures ParseCookies(Some("{}")) == None
  {
    TrimNoOp("{}");
    RemoveSurroundingWrapped("{", "", "}");
  }

  // ---------------------------------------------------------------------
  // Cookie jar (DownloadWorker.okHttpClient / createCookieJar)
  // ---------------------------------------------------------------------

  const AllowedCookieDomain: string := "crotpedia.com"

  datatype Cookie = Cookie(name: string, value: string, domain: string, path: string)

  /** A jar is installed only for a parsed, non-empty map. */
  function InstalledJar(cookiesJson: Option<string>): (r: Option<Pairs>)
    ensures r.Some? <==> ParseCookies(cookiesJson).Some? && |ParseCookies(cookiesJson).value| > 0
    ensures r.Some? ==> r == ParseCookies(cookiesJson)
  {
    var parsed := ParseCookies(cookiesJson);
    if parsed.Some? && |parsed.value| > 0 then parsed else None
  }

  /** One cookie per map entry, scoped to the request host and path "/". */
  function CookiesFor(jar: Pairs, host: string): (r: seq<Cookie>)
    ensures |r| == |jar|
    ensures forall i :: 0 <= i < |jar| ==> r[i] == Cookie(jar[i].0, jar[i].1, host, "/")
  {
    seq(|jar|, i requires 0 <= i < |jar| => Cookie(jar[i].0, jar[i].1, host, "/"))
  }

  /** `loadForRequest` as written: a plain suffix test on the host. */
  function LoadForRequestAsWritten(jar: Pairs, host: string): (r: seq<Cookie>)
    ensures !EndsWith(host, AllowedCookieDomain) ==> r == []
    ensures EndsWith(host, AllowedCookieDomain) ==> r == CookiesFor(jar, host)
  {
    if EndsWith(host, AllowedCookieDomain) then CookiesFor(jar, host) else []
  }

  /** The domain itself or one of its subdomains. */
  predicate HostInDomain(host: string, domain: string) {
    host == domain || EndsWith(host, "." + domain)
  }

  /** `loadForRequest` restricted to the domain and its subdomains. */
  function LoadForRequest(jar: Pairs, host: string): (r: seq<Cookie>)
    ensures |r| > 0 ==> HostInDomain(host, AllowedCookieDomain)
    ensures HostInDomain(host, AllowedCookieDomain) ==> r == CookiesFor(jar, host)
  {
    if HostInDomain(host, AllowedCookieDomain) then CookiesFor(jar, host) else []
  }

  /**
   * The cookies a worker's request carries: none without an installed jar,
   * otherwise the jar as written, which serves every host ending in the domain's letters.
   */
  function RequestCookies(cookiesJson: Option<string>, host: string): (r: seq<Cookie>)
    ensures InstalledJar(cookiesJson).None? ==> r == []
    ensures !EndsWith(host, AllowedCookieDomain) ==> r == []
    ensures InstalledJar(cookiesJson).Some? && EndsWith(host, AllowedCookieDomain) ==>
      r == CookiesFor(InstalledJar(cookiesJson).value, host)
  {
    match InstalledJar(cookiesJson)
    case None => []
    case Some(jar) => LoadForRequestAsWritten(jar, host)
  }

  /** The suffix test also accepts a different registrable domain that merely ends in the same letters. */
  lemma SuffixTestLeaks(jar: Pairs)
    requires |jar| > 0
    ensures !HostInDomain("evilcrotpedia.com", AllowedCookieDomain)
    ensures |LoadForRequestAsWritten(jar, "evilcrotpedia.com")| == |jar|
  {
    var h := "evilcrotpedia.com";
    assert h[|h| - |AllowedCookieDomain|..] == AllowedCookieDomain;
    assert h[|h| - |"." + AllowedCookieDomain|] == 'l';
  }

  /** A worker with any installed jar sends all its cookies to `evilcrotpedia.com`. */
  lemma InstalledJarLeaks(cookiesJson: Option<string>)
    requires InstalledJar(cookiesJson).Some?
    ensures |RequestCookies(cookiesJson, "evilcrotpedia.com")| == |InstalledJar(cookiesJson).value| > 0
  {
    SuffixTestLeaks(InstalledJar(cookiesJson).value);
  }

  /** The corrected filter agrees with the suffix test on every host it accepts. */
  lemma CorrectedNarrowsSuffixTest(jar: Pairs, host: string)
    ensures HostInDomain(host, AllowedCookieDomain) ==> EndsWith(host, AllowedCookieDomain)
    ensures LoadForRequest(jar, host) != [] ==> LoadForRequest(jar, host) == LoadForRequestAsWritten(jar, host)
  {
    if EndsWith(host, "." + AllowedCookieDomain) {
      assert host[|host| - |AllowedCookieDomain|..] == ("." + AllowedCookieDomain)[1..];
    }
  }
}
