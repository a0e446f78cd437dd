# Magnet Media site script: rotating reels, language mode and smart navbar

This project models the decision logic of the site's `script.js` in Dafny and proves properties of it.

- **Rotating reel selection** (`loadRandomReels`). The page keeps the ids of the videos on screen (`currentlyShownIds`). Each call does the following:
  - splits the video manifest into *fresh* videos (id not on screen) and *stale* videos (id on screen);
  - shuffles both lists;
  - picks three fresh videos if there are enough, and otherwise every fresh video topped up with stale ones;
  - records the picked ids as the new on-screen set;
  - puts an Instagram embed (`https://www.instagram.com/p/<id>/embed/captioned/`) into each of the slots `slot-1` to `slot-3` that received a video.

  Within `script.js` the only caller is `window.onload = loadRandomReels` (line 181), and `currentlyShownIds` starts empty on every page load. So on the page as shipped, every call sees nothing on screen, and the stale branch and `ConsecutiveLineupsDisjoint` matter only when other code (for example the HTML) calls the global function again.

  Module `Reels` holds the pure selection, its lemmas, and the class `ReelRotator`. That class owns `currentlyShownIds` and a three-element array of slot elements.
- **Language mode**. The body is in Arabic mode or not. `toggleLanguage` flips the mode, relabels the navigation links and saves `"ar"` or `"en"` under `preferredLang`. On load, Arabic mode is switched on from the saved value, or from the browser locale when nothing is saved. Module `Language` holds the pure rules and the class `LanguageManager`.
- **Smart navbar**. On each scroll event the bar is hidden when the page moves down past 100 pixels, and shown otherwise. It is solid past 50 pixels and transparent above that. The handler then remembers the position. Module `Navbar` holds the step function `Scrolled`, a lemma about series of scroll events, and the class `SmartNavbar`.

Modelling choices:
- The shuffles are inputs. `LoadRandomReels` receives the two shuffled lists, and its precondition only says that each is a reordering (same multiset) of the fresh or stale list. Every property is therefore proved for every possible outcome of the random sort.
- The fetched manifest is an input `Option<seq<Video>>`. `None` stands for a failed `fetch`, a failed `response.json()`, or any other throw before the ids are recorded.
- The error that the `catch` block logs is returned as `logged`.
- Browser values are parameters or fields: `navigator.language`, `navigator.userLanguage`, `window.scrollY`, the `localStorage` value and the class lists.
- Scroll positions are `real`, because `window.scrollY` may be fractional.

Behaviours of `script.js` that a reader may not expect, which the model follows:
- A missing slot element is not skipped. Line 40 writes `innerHTML` on `null`, and that throws into the `catch` block. The slots after it keep their old content, but `currentlyShownIds` has already been replaced. `ShowSelection` returns `SlotMissing(n)` for the first missing slot `slot-n`, and stops there.
- The lineup has distinct ids only when the manifest does (`SelectionDistinct`). A manifest with a repeated id can yield a lineup with a repeated id.
- The saved preference is `"ar"` or `"en"`, not just `"ar"` or absent. An explicit `"en"` overrides an Arabic browser locale. An empty saved value counts as nothing saved, because `!saved` is true for `""`.
- `startsWith` is called on `navigator.language || navigator.userLanguage` before the saved value is consulted. When the browser reports neither, the load handler throws, and even a saved `"ar"` is not applied (`SwitchToArabicOnLoad`, first ensures).

## Model

| member | source | states |
|---|---|---|
| `Reels.EmbedUrl` | script.js:44 | the embed address is the fixed Instagram prefix, then the id, then the `/embed/captioned/` suffix |
| `Reels.EmbedUrlInjective` | script.js:44 | two ids with the same embed address are the same id, so each slot's address identifies its video |
| `Reels.FreshVideos` | script.js:10 | a video is in the fresh list iff it is in the manifest and its id is not on screen; the list is no longer than the manifest |
| `Reels.StaleVideos` | script.js:11 | a video is in the stale list iff it is in the manifest and its id is on screen; the list is no longer than the manifest |
| `Reels.PartitionManifest` | script.js:10-11 | the fresh and stale lists together hold exactly the manifest's videos, each as often as in the manifest; their lengths add up to the manifest's length |
| `Reels.ShuffledSplit` | script.js:10-16 | the two shuffled lists are reorderings of the fresh and stale lists; together they are as long as the manifest, and a video is in the first iff it is in the manifest with its id not on screen, in the second iff its id is on screen |
| `Reels.Take` | script.js:28 | JavaScript `slice(0, n)`: a prefix of the list of length `min(n, length)` |
| `Reels.Lineup` | script.js:20-29 | the lineup has `min(3, |fresh| + |stale|)` videos; it is the first `min(3, |fresh|)` fresh videos, followed by the first `min(3 - |fresh|, |stale|)` stale videos, in order (none when there are three fresh videos) |
| `Reels.Ids` | script.js:32 | the recorded ids are the lineup's ids, position by position |
| `Reels.SelectionSize` | script.js:22-29 | for any shuffle, the lineup has `min(3, |manifest|)` videos |
| `Reels.SelectionFromManifest` | script.js:10-29 | for any shuffle, every selected video is in the manifest, and no video is selected more often than it occurs there |
| `Reels.EnoughFreshMeansNoRepeat` | script.js:22-24 | with at least three fresh videos, the lineup is three fresh videos, and none of its ids was on screen |
| `Reels.ShortFreshAllIncluded` | script.js:25-28 | with fewer than three fresh videos, the lineup starts with a reordering of all fresh videos, so every fresh video is selected |
| `Reels.ShortFreshTopsUpFromStale` | script.js:25-29 | with fewer than three fresh videos, the rest of the lineup is `min(3 - |fresh|, |stale|)` videos whose ids were on screen; with a manifest of three or more, that is exactly `3 - |fresh|` |
| `Reels.SelectionDistinct` | script.js:10-29 | if the manifest ids are pairwise distinct, so are the lineup's ids |
| `Reels.ConsecutiveLineupsDisjoint` | script.js:9-32 | once a call has recorded its ids, a next call that still has three fresh videos selects none of the videos just shown |
| `Reels.TwoFreshOfFiveExample` | script.js:18-29 | manifest A..E with A, B, C on screen: for any shuffle, the lineup has three videos, contains D and E, and its third video is one of A, B, C |
| `Reels.Written` | script.js:35-40 | the rendering loop writes the slots before the first missing slot element among those that have a selected video, and no others |
| `Reels.AllSlotsPresentWritesAll` | script.js:35-53 | when every slot element exists, every slot `i` with `i < |selection|` is written |
| `Reels.ReelRotator.constructor` | script.js:2 | at page load nothing is on screen (`currentlyShownIds` is empty) and the slots hold the markup |
| `Reels.ReelRotator.LoadRandomReels` | script.js:4-58 | on a fetch or parse failure, the state and every slot are unchanged and the failure is logged. Otherwise `currentlyShownIds` becomes the lineup's ids in order, the written slots hold exactly their video's embed, every other slot is unchanged, and a missing slot is logged |
| `Reels.ReelRotator.ShowSelection` | script.js:35-53 | slot `k` holds exactly the embed of `selection[k]` when `k` is below the stopping point of `Written`, and is unchanged otherwise; the first missing slot is reported |
| `Language.BrowserLanguage` | script.js:141 | the browser language is `navigator.language` when that is present and non-empty, and `navigator.userLanguage` (possibly undefined) otherwise |
| `Language.SwitchToArabicOnLoad` | script.js:138-145 | Arabic mode is switched on when the saved value is `"ar"`; a saved value other than `"ar"` keeps it off; with nothing saved (absent or empty) it is on iff the browser locale starts with `"ar"`; with no browser language it stays off |
| `Language.PreferenceFor` | script.js:117-118 | the saved value is `"ar"` exactly in Arabic mode and `"en"` exactly otherwise |
| `Language.SavedPreferenceRestoresMode` | script.js:112-149 | after a toggle saves its mode, the next load returns to that mode, whatever the browser locale |
| `Language.EmptyPreferenceIsAbsent` | script.js:145 | an empty saved value decides the same as no saved value |
| `Language.Relabel` | script.js:126-131 | a link shows its `data-ar` (Arabic mode) or `data-en` label when that label is present and non-empty, and is left unchanged otherwise; the data attributes are never changed |
| `Language.RelabelIdempotent` | script.js:121-133 | updating the labels twice in one mode gives the same links as updating once |
| `Language.RelabelToggleTwice` | script.js:112-133 | for a link that has a label for the mode, switching to the other mode and back shows the same text as staying |
| `Language.LanguageManager.constructor` | script.js:135-138 | at load, the body's mode and the saved preference are as the page and the storage give them, and the links are as in the markup |
| `Language.LanguageManager.UpdateNavText` | script.js:121-133 | every navigation link is relabelled for the current mode |
| `Language.LanguageManager.ToggleLanguage` | script.js:112-119 | the mode flips, so toggling twice restores it; the saved value is `"ar"` iff the new mode is Arabic; every link is relabelled for the new mode |
| `Language.LanguageManager.DetectOnLoad` | script.js:136-149 | the saved value is unchanged; Arabic mode is on afterwards iff it was on before or the load rule switches it on; the links are relabelled in Arabic exactly when it switches |
| `Navbar.Scrolled` | script.js:158-176 | `nav-hidden` iff the position grew and is past 100; `nav-solid` iff the position is past 50; exactly one of `nav-solid` and `nav-transparent`; hidden implies solid; the new remembered position is the current one |
| `Navbar.OnlyLastTwoPositionsMatter` | script.js:155-177 | after any non-empty series of scroll events, the classes depend only on the last position and the one before it, and the classes from the markup no longer matter |
| `Navbar.SmartNavbar.constructor` | script.js:152-153 | the remembered position starts at the scroll position when the script loads; the classes are those of the markup |
| `Navbar.SmartNavbar.OnScroll` | script.js:155-177 | one scroll event moves the bar's classes and remembered position to `Scrolled` of the old state |

## Left out

- The model assumes every manifest entry is an object whose `id` is a string (`Video(id: string)`). On other entries the code behaves differently, and the model does not capture it: a primitive falsy entry such as `0` has an undefined `id` without throwing, and `if (selection[i])` (line 36) then silently skips its slot; an object without `id` gets the embed address `…/p/undefined/…`.
- Fetching `videos.json` and parsing it (lines 6-7) are network I/O. The parsed manifest is an input, and any failure before line 32 is the single outcome `ManifestUnavailable`. A JSON value that is not an array makes `filter` throw; it also falls under that outcome.
- `Math.random()` and the comparator-based `sort` (lines 15-16). Only "some reordering" is modelled, not the distribution or its bias. Both lists are local, so sorting them in place has no other observable effect.
- The DOM side of the embed (iframe class, `scrolling`, `allowtransparency`; lines 43-49). A written slot is reduced to one iframe with its address.
- `console.error` (line 56). The logged error is returned instead.
- The player manager (lines 60-109). It is driven by browser media events and pixel geometry, with no sequential logic of its own.
- Overlapping asynchronous calls of `loadRandomReels` racing on `currentlyShownIds`. Each call is modelled as one atomic step.
- The `window.onload` and `DOMContentLoaded` wiring and event-listener registration (lines 136, 155, 181).
- A page without a `.navbar` element: the scroll handler would throw on `navbar.classList`. The model assumes the element exists.
- `localStorage` failures and the text normalisation of `innerText`. Storage is a field, and a label is stored as given.
