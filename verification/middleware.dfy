/** The locale-routing middleware: every request path either passes through
    or is redirected to the same path under the visitor's preferred locale. */
module Middleware {
  import opened Common
  import opened Segments
  import I18n

  /** The middleware's own copies of the locale list and default. */
  const Locales: seq<string> := ["fr", "en", "pt"]
  const DefaultLocale: string := "fr"

  /** Name of the cookie holding the visitor's chosen locale. */
  const CookieName: string := "preferred-locale"

  /** `NextResponse.next()` or `NextResponse.redirect(url)` with the new
      pathname; the rest of the URL is copied unchanged and not modelled. */
  datatype Response = Next | Redirect(pathname: string)

  /** Framework-internal routes and static files are never localized. */
  predicate Skipped(pathname: string) {
    StartsWith(pathname, "/_next") || StartsWith(pathname, "/api") || '.' in pathname
  }

  /** `pathname === '/' + locale || pathname.startsWith('/' + locale + '/')` */
  predicate LocalizedBy(pathname: string, locale: string) {
    pathname == "/" + locale || StartsWith(pathname, "/" + locale + "/")
  }

  /** `locales.some(...)`: the path already carries a locale prefix. */
  predicate HasLocale(pathname: string) {
    exists i :: 0 <= i < |Locales| && LocalizedBy(pathname, Locales[i])
  }

  /** The cookie's value if it names a supported locale, the default otherwise.
      An absent cookie and an empty one (falsy in JavaScript) both fall back. */
  function PreferredLocale(cookie: Option<string>): (r: string)
    ensures r in Locales
    ensures cookie.Some? && cookie.value in Locales ==> r == cookie.value
    ensures !(cookie.Some? && cookie.value in Locales) ==> r == DefaultLocale
  {
    if cookie.Some? && cookie.value != "" && cookie.value in Locales then cookie.value
    else DefaultLocale
  }

  /** `middleware(request)`, reduced to the request path and the value of the
      `preferred-locale` cookie. */
  function Handle(pathname: string, cookie: Option<string>): (r: Response)
    ensures r.Next? <==> Skipped(pathname) || HasLocale(pathname)
    ensures r.Redirect? ==> exists i :: 0 <= i < |Locales| && r.pathname == "/" + Locales[i] + pathname
    ensures r.Redirect? ==> r.pathname == "/" + PreferredLocale(cookie) + pathname
  {
    if Skipped(pathname) then Next
    else if HasLocale(pathname) then Next
    else Redirect("/" + PreferredLocale(cookie) + pathname)
  }

  /** The middleware's locale list and default agree with the registry's. */
  lemma AgreesWithRegistry()
    ensures Locales == I18n.Codes()
    ensures DefaultLocale == I18n.Code(I18n.DefaultLocale)
    ensures forall v :: v in Locales <==> I18n.IsValidLocale(v)
  {
  }

  /** One locale: `/tail` is localized by `loc` exactly when the first
      segment of `tail` is `loc`. */
  lemma LocalizedByIffHead(tail: string, loc: string)
    requires Sep !in loc
    ensures LocalizedBy("/" + tail, loc) <==> Split(tail)[0] == loc
  {
    var pathname := "/" + tail;
    var head := Split(tail)[0];
    SplitHead(tail);
    assert pathname[1..] == tail;
    if LocalizedBy(pathname, loc) {
      if pathname == "/" + loc {
        assert ("/" + loc)[1..] == loc;
        SplitNoSep(loc);
      } else {
        assert pathname[..|loc| + 2] == "/" + loc + "/";
        var rest := tail[|loc| + 1..];
        assert tail[..|loc| + 1] == pathname[1..|loc| + 2] == loc + [Sep];
        assert tail == tail[..|loc| + 1] + rest;
        SplitCons(loc, rest);
      }
    }
    if head == loc {
      if |head| == |tail| {
        assert tail == head;
      } else {
        assert tail[..|head| + 1] == head + "/";
        assert pathname[..|head| + 2] == "/" + head + "/";
      }
    }
  }

  /** A path is localized exactly when it starts with `/` and its first
      segment after that slash is a supported locale; a locale code that is
      only a prefix of the segment (`/frx`) does not count. */
  lemma HasLocaleIffFirstSegment(pathname: string)
    ensures HasLocale(pathname) <==>
      (StartsWith(pathname, "/") && Split(pathname)[1] in Locales)
  {
    if StartsWith(pathname, "/") {
      var tail := pathname[1..];
      assert pathname == "/" + tail;
      assert Split(pathname) == [""] + Split(tail);
      forall i | 0 <= i < |Locales|
        ensures LocalizedBy(pathname, Locales[i]) <==> Split(tail)[0] == Locales[i]
      {
        LocalizedByIffHead(tail, Locales[i]);
      }
    } else {
      assert forall loc :: !StartsWith(pathname, "/" + loc);
    }
  }

  /** The path `/frx` carries no locale prefix and is redirected. */
  lemma PrefixIsNotASegment()
    ensures !HasLocale("/frx")
    ensures Handle("/frx", None) == Redirect("/fr/frx")
  {
    HasLocaleIffFirstSegment("/frx");
    SplitNoSep("frx");
    assert "/frx" == "/" + "frx";
    assert Split("/frx") == [""] + Split("frx");
  }

  /** Idempotence: the target of a redirect is always accepted as it is, so
      a second request for it passes through, whatever its cookie. */
  lemma RedirectTargetPassesThrough(pathname: string, cookie: Option<string>, cookie2: Option<string>)
    requires pathname == "" || StartsWith(pathname, "/")
    requires Handle(pathname, cookie).Redirect?
    ensures HasLocale(Handle(pathname, cookie).pathname)
    ensures Handle(Handle(pathname, cookie).pathname, cookie2) == Next
  {
  }

  /** Without a leading slash the redirect is not idempotent: `x` is sent to
      `/frx`, which is redirected again. Request paths always start with `/`,
      which is why the idempotence lemma requires it. */
  lemma RelativePathIsRedirectedTwice()
    ensures Handle("x", None) == Redirect("/frx")
    ensures Handle("/frx", None).Redirect?
  {
    PrefixIsNotASegment();
  }
}
