/**
 * The site's base URL and the absolute URLs built from it. In the browser
 * the base is the page's origin; on the server it is the first non-empty of
 * the `SITE_URL` and `VITE_SITE_URL` variables, else the local development
 * address. The environment is passed in rather than read.
 */
module SiteUrl {
  import opened Wrappers
  import opened Text

  /** Where the code runs, and what it can see there. */
  datatype Environment =
    | Client(origin: string)
    | Server(siteUrl: Option<string>, viteSiteUrl: Option<string>)

  const DefaultSiteUrl: string := "http://localhost:3000"

  /** A variable counts as set only when it is present and non-empty, as `||` treats strings. */
  predicate IsSet(v: Option<string>) {
    v.Some? && |v.value| > 0
  }

  /** `getSiteUrl`. */
  function GetSiteUrl(env: Environment): (u: string)
    ensures env.Server? ==> |u| > 0
  {
    match env
    case Client(origin) => origin
    case Server(site, vite) =>
      if IsSet(site) then site.value
      else if IsSet(vite) then vite.value
      else DefaultSiteUrl
  }

  /**
   * On the server `SITE_URL` wins when set, `VITE_SITE_URL` is consulted only
   * when it is not, and an empty variable is the same as a missing one.
   */
  lemma ServerSiteUrlPrecedence(site: Option<string>, vite: Option<string>)
    ensures IsSet(site) ==> GetSiteUrl(Server(site, vite)) == site.value
    ensures !IsSet(site) ==> GetSiteUrl(Server(site, vite)) == GetSiteUrl(Server(None, vite))
    ensures !IsSet(site) && IsSet(vite) ==> GetSiteUrl(Server(site, vite)) == vite.value
    ensures !IsSet(site) && !IsSet(vite) ==> GetSiteUrl(Server(site, vite)) == DefaultSiteUrl
    ensures GetSiteUrl(Server(Some(""), Some(""))) == GetSiteUrl(Server(None, None))
  {
  }

  /** The path with a leading `/`, added when missing. */
  function RootedPath(path: string): (p: string)
    ensures StartsWith(p, "/")
    ensures p == path || p == "/" + path
  {
    if StartsWith(path, "/") then path else "/" + path
  }

  /** `getAbsoluteUrl`, given the site URL. */
  function AbsoluteUrl(siteUrl: string, path: string): (r: string)
    ensures |r| > |siteUrl| && r[..|siteUrl|] == siteUrl && r[|siteUrl|] == '/'
  {
    siteUrl + RootedPath(path)
  }

  /** `getAbsoluteUrl` in the given environment. */
  function GetAbsoluteUrl(env: Environment, path: string): (r: string)
    ensures StartsWith(r, GetSiteUrl(env))
  {
    AbsoluteUrl(GetSiteUrl(env), path)
  }

  /** What follows the site URL and its `/`: the path, without the leading `/` it may have had. */
  function RelativePart(siteUrl: string, url: string): string
    requires |url| > |siteUrl|
  {
    url[|siteUrl| + 1..]
  }

  /**
   * Exactly one `/` joins the site URL and the path: a rooted path is kept as
   * it is, another gets one `/` in front, and the path can be read back.
   */
  lemma AbsoluteUrlJoin(siteUrl: string, path: string)
    ensures StartsWith(path, "/") ==> AbsoluteUrl(siteUrl, path) == siteUrl + path
    ensures !StartsWith(path, "/") ==> |AbsoluteUrl(siteUrl, path)| == |siteUrl| + 1 + |path|
    ensures !StartsWith(path, "/") ==> RelativePart(siteUrl, AbsoluteUrl(siteUrl, path)) == path
    ensures StartsWith(path, "/") ==> RelativePart(siteUrl, AbsoluteUrl(siteUrl, path)) == path[1..]
  {
    var r := AbsoluteUrl(siteUrl, path);
    if StartsWith(path, "/") {
      assert r[|siteUrl| + 1..] == path[1..];
    } else {
      assert r[|siteUrl| + 1..] == path;
    }
  }

  /** A relative path and the same path with a leading `/` give the same URL. */
  lemma RelativeAndRootedAgree(siteUrl: string, path: string)
    requires !StartsWith(path, "/")
    ensures AbsoluteUrl(siteUrl, path) == AbsoluteUrl(siteUrl, "/" + path)
  {
    assert StartsWith("/" + path, "/");
  }

  /** Rooting a path twice adds nothing. */
  lemma RootedPathIdempotent(path: string)
    ensures RootedPath(RootedPath(path)) == RootedPath(path)
  {
  }

  lemma AbsoluteUrlExamples()
    ensures AbsoluteUrl("https://a.b", "x") == "https://a.b/x"
    ensures AbsoluteUrl("https://a.b", "/x") == "https://a.b/x"
    ensures GetAbsoluteUrl(Server(None, None), "og.png") == "http://localhost:3000/og.png"
  {
    assert StartsWith("/x", "/");
    assert "og.png"[..1] == "o";
  }
}
