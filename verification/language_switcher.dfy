/** The language switcher: one button per locale, separated by bars, and a
    click handler that rewrites the locale segment of the current path and
    records the choice in the `preferred-locale` cookie. */
module LanguageSwitcher {
  import opened Common
  import opened Segments
  import opened I18n
  import Middleware

  /** `segments[1] = locale` on a JavaScript array: on an array of one
      element the assignment appends. */
  function SetSegment1(segs: seq<string>, value: string): (r: seq<string>)
    requires |segs| >= 1
    ensures |r| == if |segs| >= 2 then |segs| else 2
    ensures r[1] == value && r[0] == segs[0]
    ensures forall i :: 2 <= i < |segs| ==> r[i] == segs[i]
  {
    if |segs| >= 2 then segs[1 := value] else segs + [value]
  }

  /** The path the switcher navigates to: the current path with its first
      segment after the leading slash replaced by the locale's code. */
  function SwitchPath(pathname: string, locale: Locale): string {
    Join(SetSegment1(Split(pathname), Code(locale)))
  }

  /** The cookie string written on a switch. */
  function CookieString(locale: Locale): string {
    "preferred-locale=" + Code(locale) + ";path=/;max-age=31536000;SameSite=Lax"
  }

  /** What a click does: nothing, or navigate and set the cookie. */
  datatype Effect = NoEffect | Navigate(path: string, cookie: string)

  /** `handleSwitch(locale)` */
  function HandleSwitch(pathname: string, current: Locale, locale: Locale): (r: Effect)
    ensures r.NoEffect? <==> locale == current
    ensures r.Navigate? ==> r.path == SwitchPath(pathname, locale) && r.cookie == CookieString(locale)
  {
    if locale == current then NoEffect
    else Navigate(SwitchPath(pathname, locale), CookieString(locale))
  }

  /** For a path starting with `/` the rewrite keeps the number of segments,
      puts the locale in segment 1 and leaves every other segment alone. */
  lemma {:induction false} SwitchPathSegments(pathname: string, locale: Locale)
    requires StartsWith(pathname, "/")
    ensures |Split(SwitchPath(pathname, locale))| == |Split(pathname)|
    ensures Split(SwitchPath(pathname, locale)) == Split(pathname)[1 := Code(locale)]
  {
    var segs := Split(pathname);
    assert pathname == [Sep] + pathname[1..];
    assert segs == [""] + Split(pathname[1..]);
    var r := SetSegment1(segs, Code(locale));
    assert r == segs[1 := Code(locale)];
    RegistryWellFormed();
    assert forall i :: 0 <= i < |r| ==> Sep !in r[i];
    SplitJoin(r);
  }

  /** A switched path always carries a locale prefix, so the middleware lets
      it through without a further redirect. */
  lemma SwitchPathIsLocalized(pathname: string, locale: Locale, cookie: Option<string>)
    requires StartsWith(pathname, "/")
    ensures Middleware.HasLocale(SwitchPath(pathname, locale))
    ensures Middleware.Handle(SwitchPath(pathname, locale), cookie) == Middleware.Next
  {
    var p := SwitchPath(pathname, locale);
    SwitchPathSegments(pathname, locale);
    var segs := Split(pathname);
    assert pathname == [Sep] + pathname[1..];
    assert segs == [""] + Split(pathname[1..]);
    var r := segs[1 := Code(locale)];
    assert p == Join(r) == "" + [Sep] + Join(r[1..]);
    assert p[..1] == "/";
    Middleware.HasLocaleIffFirstSegment(p);
    Middleware.AgreesWithRegistry();
  }

  /** The value a cookie string carries under `name`: the text between
      `name=` and the first `;`. */
  function CookieValue(cookie: string, name: string): Option<string> {
    if StartsWith(cookie, name + "=") then
      var rest := cookie[|name| + 1..];
      match IndexOf(rest, ";")
      case None => Some(rest)
      case Some(k) => Some(rest[..k])
    else None
  }

  /** A cookie written as `name=value` followed by attributes that start with
      `;` reads back as `value`, provided the value holds no `;`. */
  lemma {:induction false} CookieValueReadsBack(name: string, value: string, attrs: string)
    requires ';' !in value && |attrs| > 0 && attrs[0] == ';'
    ensures CookieValue(name + "=" + value + attrs, name) == Some(value)
  {
    var s := name + "=" + value + attrs;
    assert s[..|name| + 1] == name + "=";
    var rest := s[|name| + 1..];
    assert rest == value + attrs;
    assert rest[|value|..|value| + 1] == [attrs[0]];
    assert OccursAt(rest, ";", |value|);
    forall j: nat | j < |value|
      ensures !OccursAt(rest, ";", j)
    {
      assert rest[j..j + 1] == [value[j]];
    }
    assert rest[..|value|] == value;
  }

  /** The cookie is written under the name the middleware reads, its value is
      a valid locale, and the middleware's preference resolves to it. */
  lemma CookieAcceptedByMiddleware(locale: Locale)
    ensures CookieValue(CookieString(locale), Middleware.CookieName) == Some(Code(locale))
    ensures IsValidLocale(Code(locale))
    ensures Middleware.PreferredLocale(CookieValue(CookieString(locale), Middleware.CookieName)) == Code(locale)
  {
    var attrs := ";path=/;max-age=31536000;SameSite=Lax";
    assert CookieString(locale) == Middleware.CookieName + "=" + Code(locale) + attrs;
    CookieValueReadsBack(Middleware.CookieName, Code(locale), attrs);
    IsValidLocaleIff(Code(locale));
    Middleware.AgreesWithRegistry();
  }

  /** One rendered entry: a button and, except after the last one, a bar. */
  datatype Entry = Entry(locale: Locale, caption: string, pressed: bool, separatorAfter: bool)

  /** The switcher's markup for an ordered list of locales. */
  function Render(ls: seq<Locale>, current: Locale): (r: seq<Entry>)
    ensures |r| == |ls|
    ensures forall i :: 0 <= i < |r| ==> r[i].locale == ls[i] && r[i].caption == Label(ls[i])
    ensures forall i :: 0 <= i < |r| ==> (r[i].pressed <==> ls[i] == current)
    ensures forall i :: 0 <= i < |r| ==> (r[i].separatorAfter <==> i < |ls| - 1)
  {
    seq(|ls|, i requires 0 <= i < |ls| =>
      Entry(ls[i], Label(ls[i]), ls[i] == current, i < |ls| - 1))
  }

  function CountSeparators(es: seq<Entry>): nat {
    if |es| == 0 then 0
    else (if es[0].separatorAfter then 1 else 0) + CountSeparators(es[1..])
  }

  /** The set of entries rendered as pressed. */
  function PressedIndices(es: seq<Entry>): set<int> {
    set i | 0 <= i < |es| && es[i].pressed
  }

  lemma {:induction false} SeparatorsBetweenButtons(ls: seq<Locale>, current: Locale, k: nat)
    requires k <= |ls|
    ensures CountSeparators(Render(ls, current)[k..]) == if k < |ls| then |ls| - 1 - k else 0
    decreases |ls| - k
  {
    var es := Render(ls, current);
    if k < |ls| {
      assert es[k..][1..] == es[k + 1..];
      SeparatorsBetweenButtons(ls, current, k + 1);
    } else {
      assert es[k..] == [];
    }
  }

  /** The rendered switcher: `|locales| - 1` separators, and exactly one
      pressed button, the current locale's. */
  lemma RenderedSwitcher(current: Locale)
    ensures CountSeparators(Render(Locales, current)) == |Locales| - 1
    ensures exists i :: 0 <= i < |Locales| && Locales[i] == current && PressedIndices(Render(Locales, current)) == {i}
  {
    SeparatorsBetweenButtons(Locales, current, 0);
    assert Render(Locales, current)[0..] == Render(Locales, current);
    RegistryWellFormed();
    var i :| 0 <= i < |Locales| && Locales[i] == current;
    assert PressedIndices(Render(Locales, current)) == {i};
  }
}
