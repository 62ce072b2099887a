# Corporate site logic, modelled in Dafny

A model of the behaviour inside a multi-locale corporate marketing site
(Next.js, React, GSAP). There is little real logic in the site. What
there is consists of pure derivations and small state machines, and each
one is modelled here as immutable data and total functions, with the
properties proved:

- **Narrative slider** (`process_section.dfy`, module `ProcessSection`).
  On viewports at least 768px wide, the process section is pinned and
  vertical scrolling drives a horizontal track. The model covers the setup
  effect's target values: a track offset of `-innerWidth * (N - 1)`, a
  scroll window of three viewport heights from the section top, and a
  snap grid of `1 / (N - 1)`. It also covers the state derived from
  scroll progress: the active step `Math.round(p * (N - 1))`, the
  progress-bar width, and the Past/Current/Future node and title states.
  Reals are exact, and `Math.round(x)` is `(x + 1/2).Floor`.
- **One-shot reveal** (`scroll_reveal.dfy`, module `ScrollReveal`). Setup
  hides every direct child. The first intersecting visibility
  notification launches one staggered batch of entrance animations and
  disconnects the observer. Cleanup disconnects in every phase.
- **Locale routing** (`middleware.dfy`, module `Middleware`). Each request
  either passes through or is redirected to `/{locale}{path}`, using the
  cookie's locale when it is valid and `fr` otherwise.
- **Locale switching** (`language_switcher.dfy`, module
  `LanguageSwitcher`). The switcher rewrites path segment 1 with
  JavaScript's `split('/')`/`join('/')`, modelled exactly in module
  `Segments`. It also writes the cookie string and renders the buttons
  and separators.
- **Locale registry** (`i18n.dfy`, module `I18n`). This covers the locale
  list, the default locale, membership and message lookup.
- **FAQ accordion** (`faq_section.dfy`, module `FaqSection`). The shared
  `openIndex` state with its toggle.
- **Mega-menu columns** (`nav_config.dfy`, module `NavConfig`). The
  column table, which partitions the six services.
- **Footer contact card** (`footer.dfy`, module `Footer`). `tel:`,
  `mailto:` and website-label derivations, plus `ContactRow`'s choice
  between a link and a block.

`common.dfy` holds `Option` and the JavaScript string operations used
throughout: `startsWith`, `indexOf`/`includes`, and `replace` with a
string pattern.

Facts about the code that shape the model:
- `ScrollReveal.tsx` has no fail-open timer for a missing visibility API
  and does not re-clamp on resize.
- `ProcessSection.tsx` installs the tween for any step count at 768px
  and above, and it computes `1 / (N - 1)` unguarded. `SnapIncrement`
  returns `None` for that division by zero.
- The before/scrubbing/after states of the pinned section live inside
  the animation library. Only the tween's target values and the progress
  mapping are modelled.

## Model

| member | source | states |
|---|---|---|
| I18n.RegistryWellFormed | src/lib/i18n.ts:7-10 | The locales are `fr, en, pt` with no duplicates. Every locale is listed, and the default `fr` is one of them. Codes and labels are one-to-one with locales, and no code contains `/` or `.`. |
| I18n.IsValidLocaleIff | src/lib/i18n.ts:18-20 | `isValidLocale(v)` holds iff `v` is the code of some locale. It also holds iff parsing `v` succeeds, and parsing inverts `Code`. |
| I18n.AllMessages | src/lib/i18n.ts:12-16 | Every locale has its own table, and the keys are exactly the valid locale codes. |
| I18n.GetMessages | src/lib/i18n.ts:22-24 | Every locale gets its own table, so the `??` fallback to the default table is never taken. |
| Middleware.PreferredLocale | src/middleware.ts:27-29 | The result is always a supported locale. It is the cookie's value when that value is a supported locale, and `fr` otherwise. |
| Middleware.Handle | src/middleware.ts:7-35 | The request passes through iff the path is skipped (`/_next`, `/api`, contains `.`) or already localized. Otherwise it is redirected to `/` + preferred locale + path. |
| Middleware.AgreesWithRegistry | src/middleware.ts:3-4 | The middleware's own locale list and default are the registry's. Membership in the list is `isValidLocale`. |
| Middleware.LocalizedByIffHead | src/middleware.ts:20-22 | `/tail` counts as localized by `loc` iff the first `/`-segment of `tail` is exactly `loc`. |
| Middleware.HasLocaleIffFirstSegment | src/middleware.ts:20-24 | A path is localized iff it starts with `/` and its segment 1 is a supported locale. This is an independent characterization of the prefix test. |
| Middleware.PrefixIsNotASegment | src/middleware.ts:20-34 | `/frx` is not localized and is redirected to `/fr/frx`. |
| Middleware.RedirectTargetPassesThrough | src/middleware.ts:20-34 | Idempotence. For a path starting with `/`, the redirect target is localized, so the middleware passes it through whatever the cookie. |
| Middleware.RelativePathIsRedirectedTwice | src/middleware.ts:32-34 | The leading `/` is needed for idempotence: `x` goes to `/frx`, which is redirected again. |
| Segments.Split | src/components/LanguageSwitcher.tsx:24 | `split('/')` always yields at least one segment, and no segment contains `/`. |
| Segments.SplitCount | src/components/LanguageSwitcher.tsx:24 | There is one more segment than there are `/` characters. |
| Segments.JoinSplit | src/components/LanguageSwitcher.tsx:24-26 | Joining the unmodified split on `/` reproduces the original path. |
| Segments.SplitJoin | src/components/LanguageSwitcher.tsx:24-26 | Splitting the join of `/`-free segments returns the same segments. This is the other direction of the round trip. |
| Segments.SplitHead | src/components/LanguageSwitcher.tsx:24 | The first segment is a prefix of the string. It is followed by the end of the string or by `/`. |
| LanguageSwitcher.SetSegment1 | src/components/LanguageSwitcher.tsx:25 | Segment 1 becomes the new value and segment 0 and later segments are kept. A one-element array grows to two, as with JavaScript array assignment. |
| LanguageSwitcher.HandleSwitch | src/components/LanguageSwitcher.tsx:22-29 | Choosing the current locale does nothing: no navigation and no cookie. Any other locale navigates to the rewritten path and sets the cookie. |
| LanguageSwitcher.SwitchPathSegments | src/components/LanguageSwitcher.tsx:24-26 | For a path starting with `/`, the new path keeps the segment count. Segment 1 becomes the locale and every other segment is unchanged. |
| LanguageSwitcher.SwitchPathIsLocalized | src/components/LanguageSwitcher.tsx:24-28 | Every rewritten path is recognized as localized by the middleware and passes through it. |
| LanguageSwitcher.CookieValueReadsBack | src/components/LanguageSwitcher.tsx:27 | A cookie written as `name=value;attributes` reads back as its value whenever the value holds no `;`. |
| LanguageSwitcher.CookieAcceptedByMiddleware | src/components/LanguageSwitcher.tsx:27 | The cookie is written under the name the middleware reads. Its value is a valid locale, and the middleware's preference resolves to that locale. |
| LanguageSwitcher.Render | src/components/LanguageSwitcher.tsx:33-64 | One entry per locale, in order, with its label. An entry is pressed iff it is the current locale. A separator follows every entry but the last. |
| LanguageSwitcher.SeparatorsBetweenButtons | src/components/LanguageSwitcher.tsx:53 | From entry `k` on there are `n - 1 - k` separators, one between each consecutive pair of buttons. |
| LanguageSwitcher.RenderedSwitcher | src/components/LanguageSwitcher.tsx:49-53 | The switcher shows `|locales| - 1` separators. Exactly one button has `aria-pressed`, the current locale's. |
| ProcessSection.Round | src/components/ProcessSection.tsx:64 | `Math.round` returns the integer within half a unit: `r - 1/2 <= x < r + 1/2`. |
| ProcessSection.RoundIsNearest | src/components/ProcessSection.tsx:64 | The rounded value is at least as close to `x` as any integer, and integers round to themselves. |
| ProcessSection.RoundMonotone | src/components/ProcessSection.tsx:64 | Rounding preserves order. |
| ProcessSection.ActiveStep | src/components/ProcessSection.tsx:63-64 | For `N >= 1` and `p` in [0, 1], the active step lies in [0, N-1]. It is 0 at `p = 0` and N-1 at `p = 1`. |
| ProcessSection.ActiveStepMonotone | src/components/ProcessSection.tsx:63-64 | The active step is non-decreasing in progress. |
| ProcessSection.SnapIncrement | src/components/ProcessSection.tsx:58-59 | The snap increment times `N - 1` is 1. It is undefined exactly for one step, where the source divides by zero. |
| ProcessSection.SnapPoint | src/components/ProcessSection.tsx:58-59 | The `k`-th snap point lies in [0, 1] and maps to exactly `k` transitions. |
| ProcessSection.SnapPointIsStep | src/components/ProcessSection.tsx:58-64 | The `k`-th multiple of `1/(N-1)` gives active step `k`, so snapping never changes the step. |
| ProcessSection.HalfwayOfFourSteps | src/components/ProcessSection.tsx:64 | Four steps at progress 0.5 give `round(1.5) = 2`. |
| ProcessSection.Install | src/components/ProcessSection.tsx:38-68 | The slider is installed iff the viewport is at least 768px wide and both elements exist. The window starts at the section top and spans three viewport heights. |
| ProcessSection.TrackOffsetProperties | src/components/ProcessSection.tsx:43-50 | The linear-ease offset is 0 at the start and `-W(N-1)` at the end, non-increasing and never positive. At snap point `k` it is `-kW`, so the panel in view is the active step's. |
| ProcessSection.Progress | src/components/ProcessSection.tsx:52-57 | Scroll progress over the scrub window always lies in [0, 1]. |
| ProcessSection.ProgressProperties | src/components/ProcessSection.tsx:53-55 | Progress is 0 at the window start and 1 at its end. It is monotone in the scroll position and linear inside the window. |
| ProcessSection.FourStepScenario | src/components/ProcessSection.tsx:44-64 | At 1024px wide with four steps, scrolling half-way through the window gives progress 0.5 and active step 2. |
| ProcessSection.NarrowViewportScenario | src/components/ProcessSection.tsx:38-41 | A 500px viewport installs nothing. |
| ProcessSection.OnViewport | src/components/ProcessSection.tsx:36-41 | Below the breakpoint everything is reverted. An installed slider is kept as it is, never duplicated. Above the breakpoint a new one is installed iff both elements exist. |
| ProcessSection.Cleanup | src/components/ProcessSection.tsx:71 | Cleanup reverts every installation. |
| ProcessSection.InstalledOnlyWhenWide | src/components/ProcessSection.tsx:36-71 | After any sequence of viewport changes, a slider is installed only if the last viewport is at least 768px wide and both elements exist. A narrow last viewport leaves nothing installed. |
| ProcessSection.ExactlyOneCurrent | src/components/ProcessSection.tsx:171-225 | Nodes before the active step are Past and nodes after it are Future. Exactly one node is Current, and exactly one title is visible and not `aria-hidden`: the active step's. |
| ProcessSection.ProgressBarBounds | src/components/ProcessSection.tsx:196-199 | The bar width lies in [0, 100]. It is 100 iff the active step is the last (for N > 1). It is 0 iff the step is the first or there is at most one step. |
| ProcessSection.DerivedStateConsistent | src/components/ProcessSection.tsx:64-225 | From any progress in [0, 1], the active step is in range, exactly one node is Current and the bar is within bounds. |
| ScrollReveal.Setup | src/components/ScrollReveal.tsx:30-37 | Without a container nothing is hidden and no observer exists. With one, every direct child is hidden (autoAlpha 0) and offset by `distance`, and the observer is connected. |
| ScrollReveal.EntranceTweens | src/components/ScrollReveal.tsx:43-50 | Each child animates to autoAlpha 1 and y 0 over `duration`. Child `i` starts `i * stagger` after child 0. |
| ScrollReveal.Step | src/components/ScrollReveal.tsx:39-58 | A batch is launched iff the observer is connected and the notification is intersecting. A non-intersecting notification changes nothing. Cleanup disconnects in every phase. A disconnected observer never reconnects, and a shown child is never hidden again. |
| ScrollReveal.StepKeepsGood | src/components/ScrollReveal.tsx:39-58 | Every event preserves the invariant. While observing, all children are hidden and nothing has been launched. Once revealed, exactly one batch covering every child has been launched and all children are shown. |
| ScrollReveal.SetupIsGood | src/components/ScrollReveal.tsx:30-37 | The setup starts in a state that satisfies the invariant, with or without a container. |
| ScrollReveal.RevealAtMostOnce | src/components/ScrollReveal.tsx:40-58 | From any state satisfying the invariant, over any sequence of notifications and cleanups, at most one batch is launched. Once revealed, the children's poses and the launches never change. |
| ScrollReveal.RevealAtMostOncePerRun | src/components/ScrollReveal.tsx:30-58 | From the setup, whatever notifications and cleanups follow, at most one batch is launched. A launched batch animates every child in, and then every child is shown. |
| ScrollReveal.NoContainerNoEffect | src/components/ScrollReveal.tsx:31-32 | Without a container, no event sequence changes anything. |
| ScrollReveal.FirstIntersectionReveals | src/components/ScrollReveal.tsx:41-52 | The first intersecting notification reveals every child, launches exactly one batch and disconnects. |
| ScrollReveal.DefaultStagger | src/components/ScrollReveal.tsx:24-26 | The defaults are stagger 0.08, distance 24 and duration 0.75, with threshold 0.08. Item 2 starts 0.16s after item 0. |
| FaqSection.InitiallyFirstOpen | src/components/FaqSection.tsx:24 | Initially exactly item 0 is open. |
| FaqSection.Click | src/components/FaqSection.tsx:128-135 | Clicking item `i` flips whether `i` is open. Afterwards every other item is closed. |
| FaqSection.ClickTwice | src/components/FaqSection.tsx:135 | Clicking an open item twice restores the state. Clicking a closed item twice leaves everything closed. |
| FaqSection.AtMostOneOpen | src/components/FaqSection.tsx:128-135 | After any clicks on existing items, the open item, if any, is an existing item, and it is either the initial one or one that was clicked. (At most one item is open by the type of the state.) |
| FaqSection.IndicatorsAgree | src/components/FaqSection.tsx:128-185 | `aria-expanded`, the answer rows (`1fr`/`0fr`) and the answer opacity each agree with whether the item is open. |
| FaqSection.LayoutsAgree | src/components/FaqSection.tsx:69-103 | The desktop and mobile accordions render identically from the shared state, and at most one item is expanded. |
| NavConfig.ColumnsListEachServiceOnce | src/lib/navConfig.ts:1-6 | Any column table that partitions the services' indices lists every service exactly once: the menu's entries, read in order, are a rearrangement of the services list. |
| NavConfig.MegaColumnsPartitionServices | src/lib/navConfig.ts:1-6 | There are two columns of three. Every index is valid for the six services, no index repeats within or across columns, and all six are covered. |
| NavConfig.MegaColumnsContents | src/lib/navConfig.ts:1-6 | Read in order, the index table is `0, 2, 3, 1, 4, 5`, and each index appears exactly once. |
| NavConfig.MegaColumnsServices | src/lib/navConfig.ts:1-6 | The columns name accounting, audit and wealth, then advice, company creation and HR, as the comments say. |
| NavConfig.MegaMenuListsEachServiceOnce | src/lib/navConfig.ts:1-6 | Together the menu's columns list every one of the six services exactly once. |
| Footer.StripWhitespace | src/components/Footer.tsx:155 | The result contains no whitespace. It is a subsequence of the input, shorter by exactly the number of whitespace characters, so it keeps every other character in order. |
| Footer.StripWhitespaceAppend | src/components/Footer.tsx:155 | Stripping distributes over concatenation. |
| Footer.StripWhitespaceFixesClean | src/components/Footer.tsx:155 | A string without whitespace is unchanged, so stripping is idempotent. |
| Footer.PhoneHref | src/components/Footer.tsx:155 | The href is `tel:` followed by the phone number with all whitespace removed and the other characters in order. |
| Footer.MailHref | src/components/Footer.tsx:154 | The href is `mailto:` followed by the address, which can be read back from the href. |
| Footer.WebsiteLabel | src/components/Footer.tsx:159 | Only the first `https://` is removed, wherever it stands. A URL without it is unchanged. |
| Footer.WebsiteLabelExamples | src/components/Footer.tsx:159 | `https://` + rest gives rest. A second occurrence is kept. |
| Footer.Justify | src/components/Footer.tsx:31-34 | The alignment defaults to `end`: `end` gives `justify-end` and `start` gives `justify-start`. |
| Footer.Render | src/components/Footer.tsx:60-71 | A row is an anchor iff a non-empty `href` is given. `target="_blank"` and `rel="noopener noreferrer"` appear iff `external` is set. |
| Footer.AddressRows | src/components/Footer.tsx:156-158 | There is one row per address, in order, with text `street, city` and no link. |
| Footer.ContactRows | src/components/Footer.tsx:153-160 | The card's rows are, in order: mail (`mailto:` href, same tab), phone (`tel:` href, same tab), exactly the address rows, and the website (its URL as href, its label as text, new tab). Every row has the card's alignment. |
| Footer.ContactCard | src/components/Footer.tsx:241-246 | Mail and phone are same-tab links and addresses are plain blocks. The website opens in a new tab. Desktop and mobile rows differ only in alignment. |
| Footer.OfficeAddresses | src/lib/siteData.ts:38-41 | The two offices give the rows `Route de Chêne 36, 1208 Genève` and `Avenue de la Gare 10, 1003 Lausanne`, in that order. |

## Left out

- Animation-library internals are left out because they are wall-clock
  and floating-point behaviour of a foreign library: scrub smoothing 1.2,
  snap duration 0.25–0.5s, the `power2` eases, `force3D`, `clearProps`
  and frame ticking. Only target values and the snap grid are modelled.
- Browser primitives become inputs: the intersection observer's callbacks
  are `Notify` events, `window.innerWidth/innerHeight` is a `Viewport`
  value, and media-query changes are `OnViewport` calls.
- ProcessSection.OnViewport: a resize within the breakpoint keeps the
  installed tween as it is. That matches the source for the track target
  and the window length: `travelX` and `scrollDist` are captured when the
  setup runs, and `end` returns the captured `scrollDist` on refresh. On
  a refresh (`invalidateOnRefresh`) the library does re-measure the
  trigger's `start`, the section top. The model keeps the `start` of the
  original install.
- ProcessSection.ActiveStep: `self.progress * (N - 1)` is a double
  product in JavaScript, and the model multiplies exact reals. Near a
  half step the double product can round to the other neighbour.
- ProcessSection.Progress: the scroll-to-progress mapping belongs to the
  animation library, not the site's code. It is modelled as the clamped
  linear map the tween's `start`/`end` configure.
- ProcessSection.ActiveStepMonotone: requires at least one step. With
  zero steps `N - 1` is negative and the rounded value decreases, but
  nothing is rendered then.
- ProcessSection.SnapIncrement: returns `None` for one step. There the
  source computes `1 / 0` (Infinity), and what the library does with that
  grid is not modelled.
- ScrollReveal: the effect re-runs when `stagger`, `distance` or
  `duration` change. That is a `Cleanup` followed by a fresh `Setup`,
  which hides the children again. "At most once" is proved per effect run.
- I18n.GetMessages: takes a `Locale`, as the TypeScript signature does.
  At run time the type is erased, and `allMessages` is a plain object.
  For a key inherited from `Object.prototype` (`constructor`, `toString`,
  `__proto__`, …) the lookup returns that inherited member, not the
  default table. Every caller validates the key with `isValidLocale`
  first.
- Next.js plumbing is left out: the `matcher` pattern, `NextResponse`,
  `router.push`, and writing `document.cookie`. Only the computed strings
  are kept.
- Footer data: `contactInfo.contact`, `role` and `website` are read by
  `Footer.tsx` but missing from the site data. Phone, email, website and
  addresses are inputs of `ContactRows`.
- Presentational markup (class names, SVGs, cards, the mega menu's
  layout) has no behaviour and is left out. So are the message JSON
  contents, which are opaque: a table records only which locale it
  belongs to.
