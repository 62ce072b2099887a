/** The locale registry: the supported locales, the default one, membership
    of an arbitrary string, and message-table lookup with fallback. */
module I18n {
  import opened Common

  /** `type Locale = 'fr' | 'en' | 'pt'` */
  datatype Locale = Fr | En | Pt

  /** The string form of a locale, as it appears in URLs and cookies. */
  function Code(l: Locale): string {
    match l
    case Fr => "fr"
    case En => "en"
    case Pt => "pt"
  }

  /** `locales`, in the order the language switcher renders them. */
  const Locales: seq<Locale> := [Fr, En, Pt]

  /** `defaultLocale` */
  const DefaultLocale: Locale := Fr

  /** The locale codes, in registry order. */
  function Codes(): (r: seq<string>)
    ensures |r| == |Locales|
    ensures forall i :: 0 <= i < |r| ==> r[i] == Code(Locales[i])
  {
    ["fr", "en", "pt"]
  }

  /** `LABELS` in the language switcher: the button caption of each locale. */
  function Label(l: Locale): string {
    match l
    case Fr => "FR"
    case En => "EN"
    case Pt => "PT"
  }

  /** The registry is well formed: no duplicates, every locale listed, the
      default among them, codes and labels one-to-one with locales, and no
      code contains a path separator (so a code is always one URL segment). */
  lemma RegistryWellFormed()
    ensures forall i, j :: 0 <= i < j < |Locales| ==> Locales[i] != Locales[j]
    ensures forall l: Locale :: l in Locales
    ensures DefaultLocale in Locales && Code(DefaultLocale) == "fr"
    ensures forall l, m: Locale :: Code(l) == Code(m) ==> l == m
    ensures forall l, m: Locale :: Label(l) == Label(m) ==> l == m
    ensures forall l: Locale :: |Code(l)| == 2 && '/' !in Code(l) && '.' !in Code(l)
  {
    forall l: Locale ensures l in Locales {
      match l
      case Fr => assert Locales[0] == l;
      case En => assert Locales[1] == l;
      case Pt => assert Locales[2] == l;
    }
  }

  /** `isValidLocale(value)`: `value` is one of the registry's codes. */
  predicate IsValidLocale(value: string) {
    value in Codes()
  }

  /** Reads a locale back from its code. */
  function ParseLocale(value: string): (r: Option<Locale>)
    ensures r.Some? ==> Code(r.value) == value
  {
    if value == "fr" then Some(Fr)
    else if value == "en" then Some(En)
    else if value == "pt" then Some(Pt)
    else None
  }

  /** Membership is exactly "is the code of some locale", and parsing
      succeeds on exactly the valid strings and inverts `Code`. */
  lemma IsValidLocaleIff(value: string)
    ensures IsValidLocale(value) <==> exists l: Locale :: Code(l) == value
    ensures IsValidLocale(value) <==> ParseLocale(value).Some?
    ensures forall l: Locale :: ParseLocale(Code(l)) == Some(l)
  {
  }

  /** An opaque message table: the JSON contents are not modelled, only which
      locale's file a table was loaded from. */
  datatype Messages = MessageTable(source: Locale)

  /** `allMessages`, keyed by code: every locale has its own table, and
      nothing else has one. */
  function AllMessages(): (r: map<string, Messages>)
    ensures forall l: Locale :: Code(l) in r && r[Code(l)].source == l
    ensures forall key :: key in r <==> IsValidLocale(key)
  {
    map["fr" := MessageTable(Fr), "en" := MessageTable(En), "pt" := MessageTable(Pt)]
  }

  /** `getMessages(locale)`: the table stored under the locale's code. Since
      every locale has a table, the `??` fallback to the default locale's
      table is never taken and is not modelled. */
  function GetMessages(locale: Locale): (r: Messages)
    ensures r.source == locale
  {
    AllMessages()[Code(locale)]
  }
}
