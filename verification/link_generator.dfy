/**
  `LinkGenerator` of app/utils/link_generator.py: the links handed out
  after an upload. The configured BASE_URL is a parameter.
*/
module Links {
  import opened Wrappers
  import opened Strings

  /** A generator holds the base URL chosen when it was built and never changes it. */
  datatype LinkGenerator = LinkGenerator(baseUrl: string)

  /** `LinkGenerator(base_url)`: `base_url or BASE_URL`, so an empty or missing base falls back to the configured one. */
  function NewLinkGenerator(baseUrl: Option<string>, configBaseUrl: string): (g: LinkGenerator)
    ensures baseUrl.Some? && baseUrl.value != [] ==> g.baseUrl == baseUrl.value
    ensures baseUrl.None? || baseUrl.value == [] ==> g.baseUrl == configBaseUrl
  {
    if baseUrl.Some? && baseUrl.value != [] then LinkGenerator(baseUrl.value) else LinkGenerator(configBaseUrl)
  }

  /** `get_base_url()`: the stored base, or the configured one when it is empty, with every trailing '/' removed. */
  function GetBaseUrl(g: LinkGenerator, configBaseUrl: string): (r: string)
  {
    if g.baseUrl != [] then RStrip(g.baseUrl, '/') else RStrip(configBaseUrl, '/')
  }

  /** `generate_download_link(token)`: the raw base, "/d/", then the token. */
  function DownloadLink(g: LinkGenerator, token: string): (link: string)
    ensures |link| == |g.baseUrl| + 3 + |token|
  {
    g.baseUrl + "/d/" + token
  }

  /** `generate_info_link(token)`: the raw base, "/info/", then the token. */
  function InfoLink(g: LinkGenerator, token: string): (link: string)
    ensures |link| == |g.baseUrl| + 6 + |token|
  {
    g.baseUrl + "/info/" + token
  }

  // ---------------------------------------------------------------------------
  // Properties

  /**
    The base URL reported never ends with '/', and it is the stored base
    (or, when that is empty, the configured one) with only trailing '/'
    characters removed.
  */
  lemma GetBaseUrlSpec(g: LinkGenerator, configBaseUrl: string)
    ensures var src := if g.baseUrl != [] then g.baseUrl else configBaseUrl;
            var r := GetBaseUrl(g, configBaseUrl);
            r <= src && (forall i :: |r| <= i < |src| ==> src[i] == '/') &&
            (r == [] || r[|r| - 1] != '/')
  {
    RStripSpec(g.baseUrl, '/');
    RStripSpec(configBaseUrl, '/');
  }

  /** A base without a trailing '/' is reported unchanged. */
  lemma {:induction false} GetBaseUrlUnchanged(g: LinkGenerator, configBaseUrl: string)
    requires g.baseUrl != [] && g.baseUrl[|g.baseUrl| - 1] != '/'
    ensures GetBaseUrl(g, configBaseUrl) == g.baseUrl
  {
  }

  /** The two links split back into the raw base and the token: the token is what follows the marker. */
  lemma {:induction false} LinksCarryToken(g: LinkGenerator, token: string)
    ensures DownloadLink(g, token)[..|g.baseUrl|] == g.baseUrl
    ensures DownloadLink(g, token)[|g.baseUrl|..|g.baseUrl| + 3] == "/d/"
    ensures DownloadLink(g, token)[|g.baseUrl| + 3..] == token
    ensures InfoLink(g, token)[..|g.baseUrl|] == g.baseUrl
    ensures InfoLink(g, token)[|g.baseUrl|..|g.baseUrl| + 6] == "/info/"
    ensures InfoLink(g, token)[|g.baseUrl| + 6..] == token
  {
    var d := DownloadLink(g, token);
    var n := InfoLink(g, token);
    assert d == g.baseUrl + ("/d/" + token);
    assert n == g.baseUrl + ("/info/" + token);
    assert d[|g.baseUrl|..] == "/d/" + token;
    assert n[|g.baseUrl|..] == "/info/" + token;
  }

  /** One generator hands different tokens different links. */
  lemma LinksInjective(g: LinkGenerator, t1: string, t2: string)
    requires t1 != t2
    ensures DownloadLink(g, t1) != DownloadLink(g, t2)
    ensures InfoLink(g, t1) != InfoLink(g, t2)
  {
    LinksCarryToken(g, t1);
    LinksCarryToken(g, t2);
  }

  /**
    The link builders do not use `get_base_url`: a base that ends with '/'
    keeps it, so the link has "//d/" where the reported base would give "/d/".
  */
  lemma TrailingSlashKept(token: string)
    ensures DownloadLink(NewLinkGenerator(Some("https://example.org/"), ""), token) == "https://example.org//d/" + token
    ensures GetBaseUrl(NewLinkGenerator(Some("https://example.org/"), ""), "") == "https://example.org"
  {
    var base := "https://example.org/";
    assert RStrip(base, '/') == RStrip(base[..|base| - 1], '/');
    assert base[..|base| - 1] == "https://example.org";
    var b := "https://example.org";
    assert b[|b| - 1] == 'g';
  }
}
