# PAC website: team roster, content pages and photo gallery in Dafny

This project models the data logic of the Physics and Astronomy Club website. The
website is a React single-page site. The model covers its three kinds of pages:

- **The team page.** It resolves each member's photo path for the selected academic
  year. It computes how many cards fit in one row and filters members by position.
  It toggles the contact panel of each card. It picks the dataset and the titled
  sections shown for each year.
- **The list pages** (PAC events, reading circle, PAC Times, photo gallery). Each
  fetches a collection and sorts it newest first. A date that does not parse counts
  as 0, the epoch: an undated item sorts after items dated after 1970 and before items
  dated before it. The sort is stable. A failed fetch becomes an error message. Each item
  is rendered as a card that links to its detail page.
- **The detail pages.** Each finds one item by the number in the route. It renders the
  item's sections, newest first or in stored order depending on the page. It turns the
  URLs in section bodies into links and resolves stored media paths against the
  backend. For albums, it runs the full-screen photo viewer.

Modules:

- `Wrappers`: `Option` and `Result`.
- `Text`: the string operations JavaScript provides. These are substring search,
  `String.replace` with a string pattern (first occurrence only, the replacement
  inserted literally) and the `\s` class.
- `Roster`: the team page.
- `Links`: the `linkify` helper shared by the detail pages. It covers the capturing
  `split` on `https?://[^\s]+` and the piece classification.
- `Content`: the records and media URLs shared by the pages.
- `DateOrder`: the list pages' date comparator and the stable sort.
- `Sections`: the section blocks, display order and lookup shared by the detail pages.
- `EventsPage`, `ReadingCirclePage`, `TimesPage`, `AlbumPage`, `ListPages`: the pages.

Some inputs are parameters of the model:

- The date parser (`new Date(d).getTime()`) is a parameter `parse`, where `None`
  stands for NaN.
- The backend origin (`VITE_BACKEND_URL`) is the parameter `backend`.
- A fetch answer is a `Response(ok, data)` whose data is the already-decoded collection.

## Model

| member | source | states |
|---|---|---|
| Text.IndexOfFrom | src/pages/Teams.tsx:46 | the result is the first position at or after the start where the pattern occurs, and None exactly when it occurs nowhere from there |
| Text.ReplaceFirst | src/pages/Teams.tsx:50 | a string without the pattern is returned unchanged; otherwise only the first occurrence is replaced and the text around it is kept |
| Roster.ImagePath | src/pages/Teams.tsx:45-53 | a path that already names a year directory is kept; a path under the legacy `/team-photos/` directory has only that first directory replaced by the year's; any other path is placed under the year's directory |
| Roster.ImagePathHasMarker | src/pages/Teams.tsx:45-53 | every resolved photo path names a year directory |
| Roster.ImagePathIdempotent | src/pages/Teams.tsx:45-53 | resolving an already resolved path again, for any year, changes nothing |
| Roster.ImagePathMarkerWins | src/pages/Teams.tsx:46-50 | the year-directory check comes before the legacy-prefix check: a legacy path that also names a year directory is kept as it is |
| Roster.ImagePathMarkerWinsExample | src/pages/Teams.tsx:46-50 | an example of that rule: `/team-photos/old/team-photos-2023/a.jpg` is kept as it is |
| Roster.ImagePathLegacyExample | src/pages/Teams.tsx:49-51 | `/team-photos/a.jpg` becomes the year's directory followed by `a.jpg` |
| Roster.ImagePathMidPathLegacy | src/pages/Teams.tsx:49-52 | a legacy directory that appears only in the middle of the path is not treated as the prefix, so the whole path goes under the year's directory |
| Roster.CardsPerRow | src/pages/Teams.tsx:17-20 | the card count is at least one |
| Roster.CardsPerRowIsLargestFit | src/pages/Teams.tsx:17-20 | the count is the largest number of 350-pixel cards with 32-pixel gaps that fit the container width, or one when not even one fits |
| Roster.CardsPerRowMonotone | src/pages/Teams.tsx:17-20 | a wider container never holds fewer cards per row |
| Roster.UpdateCardsPerRow | src/pages/Teams.tsx:11-22 | once the container is mounted, the count becomes the largest number of cards that fit its width, and at least one; while it is not mounted, the count is kept |
| Roster.CardsPerRowAfterLastMeasure | src/pages/Teams.tsx:11-25 | the count is 3 until the container is first measured, and afterwards the count for the most recently measured width |
| Roster.FilterMembers | src/pages/Teams.tsx:73-77 | the filter keeps every selected member as often as it occurs and drops every other member |
| Roster.FilterMembersInOrder | src/pages/Teams.tsx:73-77 | the kept members appear in the order the dataset lists them |
| Roster.FilterMembersExact | src/pages/Teams.tsx:73-77 | a member appears in the filtered list exactly when it is in the data and its position is selected |
| Roster.SingleIsOneRoleList | src/pages/Teams.tsx:73-77 | a single position string selects exactly what the one-element position list selects |
| Roster.ToggleContact | src/pages/Teams.tsx:36-42 | after the toggle the card's index is open exactly when it was closed before, at most once; every other open index keeps its count |
| Roster.ToggleKeepsNoDuplicates | src/pages/Teams.tsx:36-42 | a list of open cards without duplicates stays without duplicates |
| Roster.ToggleTwiceRestores | src/pages/Teams.tsx:36-42 | toggling the same card twice restores a list in which that card was closed |
| Roster.TeamDataFor | src/pages/Teams.tsx:138-143 | 2024-25 shows the 2024-25 dataset; every other year, including an unknown one, shows the 2025-26 dataset |
| Roster.SectionsFor | src/pages/Teams.tsx:211-219 | Leadership comes first and Coordinators then Executives last; Panel Members and Core Team Members appear exactly in 2024-25, in that order, right after Leadership |
| Roster.OpensOnDefaultYear | src/pages/Teams.tsx:135-143 | the page opens on 2025-26, showing its dataset and three sections |
| Roster.Card | src/pages/Teams.tsx:91-123 | the card shows the year-resolved photo and the field and position; the mobile number appears exactly for an Overall Coordinator or CTM with a non-empty number; the toggle exists exactly when the email is non-empty; the contacts are open exactly when the index is open |
| Links.HttpTestIsOccurrence | src/pages/PACEventsPage.tsx:34-35 | the character-by-character comparison with the scheme `http://` holds exactly where that string occurs |
| Links.HttpsTestIsOccurrence | src/pages/PACEventsPage.tsx:34-35 | the character-by-character comparison with the scheme `https://` holds exactly where that string occurs |
| Links.SplitJoin | src/pages/PACEventsPage.tsx:34 | joining the pieces of the split gives back the input text |
| Links.SplitShape | src/pages/PACEventsPage.tsx:34 | the split has an odd number of pieces; every odd piece is a whole URL (a scheme followed by non-space characters, up to a space or the end); no even piece contains a URL; every even piece after the first is empty or starts with a space |
| Links.LinkifyAsWritten | src/pages/PACEventsPage.tsx:33-39 | as written, each piece of the split that starts with a scheme becomes an anchor to itself, and every other piece stays text |
| Links.Linkify | src/pages/PACEventsPage.tsx:33-39 | corrected: exactly the pieces the pattern matched (the odd ones) become anchors, each showing its own text |
| Links.LinkifyRoundTrip | src/pages/PACEventsPage.tsx:33-39 | the rendered pieces show exactly the original body text |
| Links.LinkifyAsWrittenRoundTrip | src/pages/PACEventsPage.tsx:33-39 | the as-written rendering also shows exactly the original body text |
| Links.LinkifyPieces | src/pages/PACEventsPage.tsx:33-39 | every anchor links to the very text it shows, and that text is a URL; no plain piece contains a URL |
| Links.AsWrittenAgreesAfterFirst | src/pages/PACEventsPage.tsx:33-39 | the as-written and corrected renderings agree on every piece after the first one |
| Links.NoUrlSplitsToItself | src/pages/PACEventsPage.tsx:34 | text without a URL splits into the single piece holding the whole text |
| Links.BareSchemeBecomesAnchor | src/pages/PACEventsPage.tsx:33-39 | the text `http:// x` becomes, as written, an anchor whose address contains a space; the corrected rendering keeps it as text |
| Content.MediaUrl | src/pages/PACEventsPage.tsx:100 | a media URL is the backend origin followed by the stored path, with nothing added or dropped |
| Sections.GalleryPath | src/pages/PACEventsPage.tsx:155 | a gallery link is `/gallery/` followed by the album id |
| Sections.ArticleBlocks | src/pages/PACReadingCirclePage.tsx:127-150 | a section renders heading, body, image in that order; each block appears exactly when its field is a non-empty string; the body is the linkified body text; the image is resolved against the backend |
| Sections.RenderedBody | src/pages/PACReadingCirclePage.tsx:134-140 | a rendered body shows the body text exactly, and its pieces agree with the as-written link classification on every piece after the first |
| Sections.EventSectionBlocks | src/pages/PACEventsPage.tsx:127-160 | an event section renders like an article section, followed by a gallery link exactly when the section has a non-empty album id |
| Sections.EventBlocksExtendArticle | src/pages/PACEventsPage.tsx:127-160 | the event rendering starts with the article rendering and adds at most the gallery link |
| Sections.NoGalleryRendersAlike | src/pages/PACEventsPage.tsx:153-160 | without an album id an event section renders exactly like an article section |
| Sections.Reversed | src/pages/PACEventsPage.tsx:118 | the i-th shown section is the i-th from the end of the stored list |
| Sections.ReversedTwice | src/pages/PACEventsPage.tsx:118 | reversing is its own inverse, so no section is lost or duplicated |
| Sections.ReversedShowsNewestFirst | src/pages/PACEventsPage.tsx:118 | three stored sections are shown last first |
| Sections.FindIndex | src/pages/PACEventsPage.tsx:49-51 | the index is the first whose number is the requested one, and None exactly when no number matches |
| Sections.Find | src/pages/PACEventsPage.tsx:49-51 | a lookup succeeds exactly when some item has the number, and returns the first such item |
| Sections.FindUnique | src/pages/PACEventsPage.tsx:49-51 | when numbers are unique, looking up an item's number returns that item |
| DateOrder.DateKey | src/pages/PACEvents.tsx:32-37 | a date that does not parse sorts as time 0; a parsed date sorts as its time |
| DateOrder.Insert | src/pages/PACEvents.tsx:31-39 | inserting adds exactly one item and keeps all the others |
| DateOrder.InsertSorted | src/pages/PACEvents.tsx:31-39 | inserting into a newest-first list keeps it newest first |
| DateOrder.SortByDate | src/pages/PACEvents.tsx:31-39 | the sorted list is newest first and is a permutation of the fetched list |
| DateOrder.SortByDateStable | src/pages/PACEvents.tsx:31-39 | items with equal keys keep their fetched order |
| DateOrder.SortByDateOrders | src/pages/PACEvents.tsx:31-39 | the sorted list is newest first, a permutation, and stable |
| DateOrder.DateOrderUnique | src/pages/PACEvents.tsx:31-39 | two lists that are both newest-first, stable permutations of the same list are equal |
| DateOrder.DateOrderIsSort | src/pages/PACEvents.tsx:31-39 | any newest-first, stable permutation of the fetched list is the sorted list |
| DateOrder.UndatedSortsAtEpoch | src/pages/PACEvents.tsx:35-38 | an undated item comes after every item dated after 1970 and before every item dated before it |
| DateOrder.NewerComesFirst | src/pages/PACEvents.tsx:38 | a strictly newer item always comes first |
| ListPages.LoadList | src/pages/PACEvents.tsx:25-40 | a non-OK answer gives the page's own error message; an OK answer gives the collection newest first, undated items at the epoch, ties in fetched order |
| ListPages.LoadListIsDetermined | src/pages/PACEvents.tsx:31-39 | every list ordered as the page promises is the one the page shows |
| ListPages.DateLabel | src/pages/PACEvents.tsx:127 | the date label is never empty: the date itself, or "Date TBA" when the date is empty |
| ListPages.CardFor | src/pages/PhotoGallery.tsx:101-137 | a card shows the resolved cover, date label and title; a description only for albums and only when it is non-empty; its button leads to the kind's route followed by the item's number |
| ListPages.RouteParam | src/pages/PACEvents.tsx:51-53 | the inverse of the navigation target `/pac-events/${number}` (and the other kinds' prefixes): a path has a number exactly when it starts with the kind's prefix, and prefix plus number gives the path back |
| ListPages.CardRouteRoundTrip | src/pages/PACEvents.tsx:51-53 | stripping the kind's prefix from a card's navigation target gives back exactly that card's item number |
| ListPages.CardRoutesDisjoint | src/pages/PhotoGallery.tsx:137 | no card leads to the detail route of another kind |
| EventsPage.FetchEvent | src/pages/PACEventsPage.tsx:44-54 | a non-OK answer gives "Failed to fetch PAC Events"; otherwise the first event with the route's number, or "Event #n not found" exactly when there is none |
| EventsPage.ErrorsDistinct | src/pages/PACEventsPage.tsx:46-53 | the fetch error and the not-found error are always different messages |
| EventsPage.EventGroups | src/pages/PACEventsPage.tsx:116-174 | sections are shown newest first, each with its gallery link; an event without a sections array shows its top-level heading and body as one section |
| EventsPage.EventView | src/pages/PACEventsPage.tsx:100-190 | the cover is resolved; the groups are the event's section groups; no placeholder; the event-level gallery link appears exactly when the album id is non-empty |
| EventsPage.EmptySectionsRenderNothing | src/pages/PACEventsPage.tsx:117-118 | an empty sections array renders no section and no placeholder, since an empty array is truthy |
| ReadingCirclePage.FetchSession | src/pages/PACReadingCirclePage.tsx:39-49 | a non-OK answer gives "Failed to fetch Reading Circle events"; otherwise the first session with the route's number, or "Event #n not found" exactly when there is none |
| ReadingCirclePage.ErrorsDistinct | src/pages/PACReadingCirclePage.tsx:41-48 | the two error messages are always different |
| ReadingCirclePage.SessionView | src/pages/PACReadingCirclePage.tsx:96-158 | sections are shown newest first, without gallery links; the placeholder shows exactly when there are no sections |
| TimesPage.FetchIssue | src/pages/PACTimesPage.tsx:31-41 | a non-OK answer gives "Failed to fetch issue"; otherwise the first issue with the route's number, or "Issue not found" exactly when there is none |
| TimesPage.ErrorsDistinct | src/pages/PACTimesPage.tsx:33-40 | the two error messages are different |
| TimesPage.IssueView | src/pages/PACTimesPage.tsx:96-158 | sections are shown in stored order; the placeholder shows exactly when the sections array is missing or empty |
| TimesPage.OppositeOrders | src/pages/PACTimesPage.tsx:118 | the same sections appear in opposite orders on a reading-circle page and a PAC Times page |
| AlbumPage.FetchAlbum | src/pages/PhotoGalleryAlbum.tsx:27-37 | a non-OK answer gives "Failed to fetch albums"; otherwise the first album with the route's number, or "Album #n not found" exactly when there is none |
| AlbumPage.ErrorsDistinct | src/pages/PhotoGalleryAlbum.tsx:29-36 | the two error messages are always different |
| AlbumPage.Step | src/pages/PhotoGalleryAlbum.tsx:108-149 | a photo click selects that photo; a close or backdrop click clears the selection; a click on the enlarged image changes nothing |
| AlbumPage.RunIsLastDecision | src/pages/PhotoGalleryAlbum.tsx:108-149 | after any run of clicks, the selection is the one chosen by the newest click that was not on the enlarged image, or the starting selection when there is none |
| AlbumPage.ImageClicksKeepSelection | src/pages/PhotoGalleryAlbum.tsx:142-150 | clicks on the enlarged image never close or change the viewer |
| AlbumPage.AlbumView | src/pages/PhotoGalleryAlbum.tsx:81-150 | the cover and every photo are resolved against the backend, in stored order; the description appears exactly when it is non-empty; the viewer is open exactly when the selection is a non-empty path, showing that path resolved |
| AlbumPage.GridClickShowsTile | src/pages/PhotoGalleryAlbum.tsx:100-146 | clicking a grid tile opens the viewer on the image that tile shows, unless the stored path is empty |
| AlbumPage.CloseHidesViewer | src/pages/PhotoGalleryAlbum.tsx:133-140 | after a close or backdrop click the viewer is hidden |
| AlbumPage.ViewerStartsEmpty | src/pages/PhotoGalleryAlbum.tsx:22 | the viewer starts closed; from there, any run of clicks shows the choice of the newest photo, close or backdrop click, and stays closed when there is none |

## Left out

- Network and JSON: fetching, `response.json()` and the loading spinner are not modelled. A fetch is its `ok` flag plus the decoded collection. A JSON body that fails to parse, or lacks the collection field, throws a message the model does not produce.
- Date parsing: `new Date(...)` is the parameter `parse`. The model does not define which strings parse.
- Regular expressions: `\s` is written out as the ECMAScript white-space and line-terminator characters. The pattern `https?://[^\s]+` is implemented directly, not through a regex engine.
- The array sort is modelled as a stable insertion sort. `DateOrder.DateOrderUnique` shows that every stable, newest-first permutation is equal to it, so the choice of algorithm does not matter.
- Animation: the per-card delays (`index % cardsPerRow * 0.1`, `index * 0.05`), the motion components and all styling are left out. They are floating point and presentation only.
- Resize handling: registering and removing the window resize listener are left out. `Roster.UpdateCardsPerRow` is the handler itself, with the measured width as its argument, and `Roster.CardsPerRowAfter` runs it once per measurement.
- The navigation bar, footer, buttons and home page are not part of this model. The year drop-down's open/closed state is left out too.
- Sections.ArticleBlocks: section bodies are rendered with the corrected `Links.Linkify` (see "## Findings"), not with the pages' as-written classification. The two differ at most on the first piece of a body, and only when that piece starts with a scheme the pattern did not match (`Sections.RenderedBody`, `Links.AsWrittenAgreesAfterFirst`).
- EventSectionBlocks (`Sections.EventSectionBlocks`): renders the body as `Sections.ArticleBlocks` does, with the corrected linkify.
- EventGroups (`EventsPage.EventGroups`): its section bodies use the corrected linkify, as in `Sections.ArticleBlocks`.
- EventView (`EventsPage.EventView`): its section bodies use the corrected linkify, as in `Sections.ArticleBlocks`.
- IssueView (`TimesPage.IssueView`): its section bodies use the corrected linkify, as in `Sections.ArticleBlocks`.
- SessionView (`ReadingCirclePage.SessionView`): its section bodies use the corrected linkify, as in `Sections.ArticleBlocks`.
- Text.ReplaceFirst: the replacement string is inserted literally. JavaScript's `replace` would expand `$&`, `$$` and the like inside it. The page only passes the two fixed year strings, which contain no `$`.
- ListPages.RouteParam: the router's matching of the `:number` route parameter is not modelled. That matcher reads one path segment and percent-decodes it. `RouteParam` only strips the prefix the page adds. A number containing `/`, `?`, `#` or a `%` escape would reach the detail page changed.
- ReadingCirclePage.SessionView: a session record without a `sections` array makes the source page throw while rendering. The model makes `sections` a required field instead of modelling that crash.
- The error screen's fallback text ("Album not found" when no album is set and there is no error) cannot happen after a finished fetch, so it is not modelled.
- A failing promise of the JSON team files does not exist: the two team datasets are imported at build time and are parameters of `Roster.TeamDataFor`.


## Findings

| source | as written | input that shows it | evidently intended | confidence | as-written member | corrected member |
|---|---|---|---|---|---|---|
| src/pages/PACEventsPage.tsx:33-39 (also src/pages/PACReadingCirclePage.tsx:28-34, src/pages/PACTimesPage.tsx:53-59) | a piece of the split becomes a link when it merely starts with `http://` or `https://` | the body `http:// x`: the pattern does not match it, so the split returns it whole as the first piece, and the page renders it as a link to `http:// x` | only the pieces the pattern matched (the odd positions of the split) become links | not executed | Links.LinkifyAsWritten, Links.BareSchemeBecomesAnchor | Links.Linkify, Links.LinkifyPieces |
