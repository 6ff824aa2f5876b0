/**
 * The server's cross-origin policy: configured front-end URLs are
 * normalised by dropping one trailing slash, and a request's origin is
 * allowed when it is missing or listed.
 */
module Server {
  import opened Common

  /** `url ? url.replace(/\/$/, "") : ""`: one trailing slash removed. */
  function NormalizeOrigin(url: Option<string>): (r: string)
    ensures !Truthy(url) ==> r == ""
    ensures Truthy(url) && url.value[|url.value| - 1] == '/' ==> r + "/" == url.value
    ensures Truthy(url) && url.value[|url.value| - 1] != '/' ==> r == url.value
  {
    if !Truthy(url) then ""
    else
      var s := url.value;
      if s[|s| - 1] == '/' then s[..|s| - 1] else s
  }

  /** A normalised origin ends in a slash only if the configured value ended in two. */
  lemma NormalizedEndsWithoutSlash(url: Option<string>)
    requires Truthy(url)
    requires !(|url.value| >= 2 && url.value[|url.value| - 1] == '/' && url.value[|url.value| - 2] == '/')
    ensures var r := NormalizeOrigin(url); r == "" || r[|r| - 1] != '/'
  {
  }

  /** The deployed origins, then the two configured front ends, normalised. */
  function AllowedOrigins(frontendUrl: Option<string>, adminFrontendUrl: Option<string>): (r: seq<string>)
    ensures |r| == 6
    ensures r[..4] == ["http://localhost:5173", "http://localhost:5174",
                      "https://modren-live-chat-web-application.vercel.app",
                      "https://live-chat-web-application-frontend.vercel.app"]
    ensures r[4] == NormalizeOrigin(frontendUrl) && r[5] == NormalizeOrigin(adminFrontendUrl)
  {
    [ "http://localhost:5173",
      "http://localhost:5174",
      "https://modren-live-chat-web-application.vercel.app",
      "https://live-chat-web-application-frontend.vercel.app",
      NormalizeOrigin(frontendUrl),
      NormalizeOrigin(adminFrontendUrl) ]
  }

  datatype CorsVerdict = Allow | Deny(error: string)

  /** The `origin` callback handed to the CORS middleware. */
  function CorsOrigin(origin: Option<string>, allowed: seq<string>): (r: CorsVerdict)
    ensures r.Allow? <==> !Truthy(origin) || origin.value in allowed
    ensures r.Deny? ==> r.error == "Not allowed by CORS"
  {
    if !Truthy(origin) then Allow
    else if origin.value in allowed then Allow
    else Deny("Not allowed by CORS")
  }

  /**
   * A front end configured with a trailing slash is reached under the
   * slash-free origin a browser sends.
   */
  lemma ConfiguredFrontendAllowed(base: string, adminFrontendUrl: Option<string>)
    requires base != "" && base[|base| - 1] != '/'
    ensures CorsOrigin(Some(base), AllowedOrigins(Some(base + "/"), adminFrontendUrl)) == Allow
    ensures CorsOrigin(Some(base), AllowedOrigins(Some(base), adminFrontendUrl)) == Allow
  {
    assert (base + "/")[..|base|] == base;
    assert AllowedOrigins(Some(base + "/"), adminFrontendUrl)[4] == base;
    assert AllowedOrigins(Some(base), adminFrontendUrl)[4] == base;
  }

  /** With neither front end configured, only the four deployed origins (and no origin) get through. */
  lemma UnconfiguredAllowsOnlyDeployed(origin: string)
    requires origin != ""
    ensures CorsOrigin(Some(origin), AllowedOrigins(None, None)).Allow? <==>
      origin in AllowedOrigins(None, None)[..4]
  {
    var a := AllowedOrigins(None, None);
    assert a == a[..4] + ["", ""];
  }
}
