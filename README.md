# carmelo-health-records: the site script's navigation and accordion rules

The site is a static pet health-records dashboard. Its shared script,
`js/main.js`, runs `initializeSite` once the navigation fragment is on
the page. This project models the four rules that function sets up, and
proves what each one guarantees:

- **Page names** (`FileNames`). `getFileName` reduces an address to a file
  name, and the top navigation compares those names.
- **Top navigation** (`TopNav`). Every link whose resolved address ends in
  `.html` or `/` gets the active style when it names the current page and
  the inactive style otherwise. The loop restyles each link object in place.
- **Accordions** (`Accordion`). A button with both a following panel and a
  `.chev` icon has its panel shown at setup. Each click then closes an open
  panel or opens a closed one, and turns the chevron to match.
- **Side navigation** (`SideNav`). There is one new link per `h2`/`h3`
  heading that has an id, and the links are kept as objects. The
  intersection-observer callback marks as `active` the links that point at
  the last intersecting heading of a batch.

The document is modelled as a few small classes in `Dom`, each with only
the state the script touches:
- `Link`: an anchor's `href` and text, plus its class list as a set of
  tokens.
- `Panel`: a panel's inline `display` style.
- `Chevron`: the chevron icon's class list.

Headings and observer entries are values. The browser feeds are
parameters:
- the address bar (`window.location.href`);
- the link and button lists found by `querySelectorAll`;
- each batch of intersection entries.

The repository's other page scripts (`perplexity report/app.js`,
`perplexity app/app_1.js`) hold the search, collapsing and
reading-progress logic; this model covers `js/main.js` only.

Behaviour worth knowing, stated in the model:
- The root test in `getFileName` is made before the fragment is cut. So
  the root address with a fragment (`.../#top`) names the empty file, and
  the link to the root is then styled inactive
  (`FileNames.RootWithFragmentIsNotIndex`,
  `TopNav.RootLinkOnRootWithFragment`).
- For the same reason, `.../carmelo-health-records#x` names
  `carmelo-health-records`, not `index.html`
  (`FileNames.SiteRootWithFragment`).
- When two headings share an id, the callback marks both their links
  `active` (`SideNav.SideNavigation.OnIntersections`).
- A query string is not cut off: `.../page.html?x=1` names `page.html?x=1`
  and so matches no navigation link to `page.html`
  (`FileNames.QueryIsKept`).
- A `/` inside a fragment is taken for a path separator:
  `.../page.html#a/b` names `b` (`FileNames.SlashInFragment`).
- The accordion setup opens each panel but leaves the chevron as the
  markup had it, so panel and chevron are in step only after the first
  click. This is why `Accordion.ClickTwice` restores the whole state only
  from a state in step.
- A heading without an `id` attribute that reports as intersecting yields
  the target `#null`, because the template string renders `null`. The
  model writes this out (`SideNav.EntryHref`, `SideNav.MissingIdTargetsNull`).

## Model

| member | source | states |
|---|---|---|
| FileNames.LastIndexOf | js/main.js:27 | the result is -1 or a position of the character, and no later position holds it |
| FileNames.BeforeFirst | js/main.js:31 | the result is a prefix without the separator, and it is followed by the separator unless it is the whole string |
| FileNames.LastSegment | js/main.js:27 | the segment never contains a slash |
| FileNames.LastSegmentShape | js/main.js:27 | the segment is a suffix of the URL, preceded by a slash unless it is the whole URL; a URL without a slash is its own segment |
| FileNames.SegmentName | js/main.js:28-31 | the name of a slash-free segment never contains `/` or `#` |
| FileNames.GetFileName | js/main.js:26-32 | the result never contains `/` or `#` |
| FileNames.QueryIsKept | js/main.js:27-31 | a page segment followed by `?` and a query names the whole of it, query included |
| FileNames.SlashInFragment | js/main.js:27-31 | a URL whose fragment contains `/` names the text after that slash |
| FileNames.BeforeFirstOfParts | js/main.js:31 | cutting at the first `#` recovers any `#`-free prefix that is followed by `#` or by nothing |
| FileNames.LastSegmentOfParts | js/main.js:27 | for any split of a URL into a slash-ended (or empty) directory and a slash-free segment, the last segment is that segment |
| FileNames.FileNameOfParts | js/main.js:26-32 | the whole rule on any such split: root segments give `index.html`, others their part before the first `#` |
| FileNames.FileNameWithoutSlash | js/main.js:27-31 | a URL with no slash is treated as its own segment |
| FileNames.SegmentIgnoresFragment | js/main.js:28-31 | a page segment, with or without a fragment, names that page |
| FileNames.FileNameIgnoresFragment | js/main.js:26-32 | a page URL, with or without a fragment, names that page |
| FileNames.RootWithFragmentIsNotIndex | js/main.js:28-31 | the root URL names `index.html`, but the root URL followed by a fragment names the empty file, because the root test comes before hash stripping |
| FileNames.SiteRootWithFragment | js/main.js:28-31 | `carmelo-health-records#x` as the last segment names `carmelo-health-records`, not `index.html` |
| Dom.ForceToken | js/main.js:75 | `classList.toggle(token, force)` leaves the token present exactly when forced, and every other class as it was |
| Dom.EndsWith | js/main.js:38 | `String.prototype.endsWith`: the string ends with the suffix (reference definition; no ensures) |
| TopNav.IsPageLink | js/main.js:38 | a link is touched when its address ends in `.html` or `/` (reference definition; no ensures) |
| TopNav.ActiveClassesFor | js/main.js:42 | the active style of a mobile or desktop link, both arms written out (reference definition; equal arms proved by `MobileMakesNoDifference`) |
| TopNav.InactiveClassesFor | js/main.js:43 | the inactive style, both arms written out (reference definition; equal arms proved by `MobileMakesNoDifference`) |
| TopNav.Restyle | js/main.js:38-51 | a link's class set after the rule: remove both styles, then add the one its file name calls for (reference definition; its properties are `RestyleEffect`, `RestyleIdempotent`, `ActiveIffCurrentPage`) |
| TopNav.MobileMakesNoDifference | js/main.js:40-43 | both arms of the mobile choice give the same active and inactive class sets |
| TopNav.RestyleEffect | js/main.js:38-51 | links not ending in `.html` or `/` keep their classes; a touched link has all active classes and no inactive one when it names the current page, and the reverse otherwise; classes outside both sets are preserved |
| TopNav.RestyleIdempotent | js/main.js:37-53 | applying the rule twice gives the same classes as applying it once |
| TopNav.ActiveIffCurrentPage | js/main.js:45-51 | for a touched link, "all active and no inactive classes" holds if and only if its file name equals the current page's |
| TopNav.RootLinkOnRootWithFragment | js/main.js:28-31 | on the root address with a fragment, a link to the root is styled inactive |
| TopNav.RestyleLink | js/main.js:38-51 | the loop body leaves the link with the class set `Restyle` gives for its address, its old classes and the current page's file name |
| TopNav.MarkCurrentPage | js/main.js:34-53 | the loop leaves every link of the list with the class set `Restyle` gives for its address, its old classes and the current page's file name |
| Accordion.IsOpen | js/main.js:73 | a panel is open when its display is anything but `none` (reference definition; no ensures) |
| Accordion.Clicked | js/main.js:72-76 | a click flips open and closed, leaves the display as `block` or `none`, puts `rotate-180` on the chevron exactly when the panel is now open, and keeps the chevron's other classes |
| Accordion.ClickTwice | js/main.js:72-76 | two clicks restore a `block`/`none` display, and restore the whole state when the chevron was in step with the panel |
| Accordion.Wired | js/main.js:67-71 | no more handlers than buttons |
| Accordion.WiredMembers | js/main.js:67-72 | a handler for a panel and a chevron is registered if and only if some button has exactly that panel and that chevron |
| Accordion.SetUp | js/main.js:65-79 | the panel of every complete button is set to `block`; a panel whose button has no chevron keeps its display; the returned handlers are those of `Wired` |
| Accordion.Click | js/main.js:72-76 | the panel and chevron end in the state `Clicked` gives, so the chevron carries `rotate-180` exactly when the panel is open |
| SideNav.IdOf | js/main.js:89 | `heading.id`: the attribute, or the empty string when missing (reference definition; no ensures) |
| SideNav.HasId | js/main.js:101 | `if (heading.id)`: the id is non-empty (reference definition; no ensures) |
| SideNav.AnchorOf | js/main.js:91 | the link address `#` followed by the id (reference definition; no ensures) |
| SideNav.LinkClasses | js/main.js:103 | the class list of a heading's link (reference definition; its exact content is `LinkClassesByTag`) |
| SideNav.EntryHref | js/main.js:112-115 | the compared address `#` followed by the id attribute, `#null` when missing (reference definition; no ensures) |
| SideNav.MissingIdTargetsNull | js/main.js:112-115 | a heading without an `id` attribute gets no link, yet an intersecting entry for it targets `#null` |
| SideNav.AfterBatch | js/main.js:110-120 | a link's classes after the callback handles a batch in order (reference definition; `BatchLastWins` states what it computes) |
| SideNav.Linked | js/main.js:100-101 | no more links than headings, and every linked heading has a non-empty id |
| SideNav.LinkedMembers | js/main.js:100-101 | a heading gets a link if and only if it is on the page and has a non-empty id |
| SideNav.LinkedConcat | js/main.js:100-107 | links follow document order: two runs of headings give the first run's links followed by the second's |
| SideNav.LinkedSnoc | js/main.js:100-106 | one more heading adds one link exactly when it has an id |
| SideNav.LinkClassesByTag | js/main.js:103 | every link carries the base classes; `H3` links get `pl-6`, all others `pl-3 font-medium`, and nothing else |
| SideNav.CreateNavLink | js/main.js:88-98 | a heading without an id gives no link; otherwise a new anchor to `#id` carrying the heading's text |
| SideNav.NavLinkFor | js/main.js:102-103 | a heading with an id gets a fresh link with `href = "#" + id`, its text and the class list for its tag |
| SideNav.Marked | js/main.js:113-118 | after one pass a link carries `active` exactly when its `href` is the target, with every other class unchanged |
| SideNav.MarkedOverrides | js/main.js:110-119 | a later intersecting entry overrides what an earlier one marked |
| SideNav.LastIntersecting | js/main.js:110-111 | the result is -1 or the position of an intersecting entry, and no later entry is intersecting |
| SideNav.LastTarget | js/main.js:110-112 | none exactly when no entry is intersecting; otherwise the address of an intersecting entry after which none intersects |
| SideNav.BatchLastWins | js/main.js:109-120 | a batch leaves a link as its last intersecting entry alone would, and a batch with no intersecting entry changes nothing |
| SideNav.SideNavigation.Build | js/main.js:100-107 | `allNavLinks` holds one new, distinct link per heading with an id, in document order, with the right `href`, text and classes; `#nav-links` gains the same links in the same order |
| SideNav.SideNavigation.AddHeading | js/main.js:101-106 | a heading with an id appends one fresh link to both the container and `allNavLinks`; any other heading changes nothing |
| SideNav.SideNavigation.OnIntersections | js/main.js:109-120 | with an intersecting entry in the batch, exactly the links pointing at the last intersecting entry's `#id` carry `active`, and other classes are untouched; with none, no link changes |

## Left out

- `loadComponent` and its two calls (js/main.js:3-21, 135-136) are left out because they are network I/O: fetch, promises, `innerHTML` injection and console logging. `initializeSite` is modelled as if the navigation fragment were already on the page.
- Listener registration and the `DOMContentLoaded` wiring are left out because they are browser dispatch. The effects of the handlers are modelled as methods (`Accordion.Click`, `SideNav.SideNavigation.OnIntersections`), and the registered accordion handlers appear as the list that `Accordion.SetUp` returns.
- The mobile menu's `hidden` toggle (js/main.js:56-62) is left out. It flips one class and has nothing to prove beyond `Dom.ForceToken` and the accordion pattern.
- Smooth scrolling on side-nav link clicks and on the scroll-to-top button (js/main.js:93-96, 129) is left out because it is browser layout.
- The scroll-to-top visibility test (js/main.js:124-128) is left out because it depends on browser scroll geometry.
- The IntersectionObserver's geometry and `rootMargin` (js/main.js:121-122) are left out. Each batch of entries is a parameter, so which headings count as intersecting is the browser's decision.
- `link.href` on a top-navigation link is the address the browser resolves from the attribute. The model takes that resolved address as the link's `href` and does not model URL resolution.
- The `#side-nav`, `#report-content` and `#nav-links` lookups are left out. The model assumes all three exist, as on the report page that has a side navigation. The script itself would fail if `#report-content` were missing.
- Class lists are modelled as sets. The token order and duplicate tokens of a `DOMTokenList` are not captured.
- tailwind.config.js is left out because it is theme configuration with no logic.
- Search and highlighting, collapsed-section tracking, reading progress and keyboard shortcuts are not in `js/main.js` and are not part of this model.
