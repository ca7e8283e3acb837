# Landing page gallery and configurator, in Dafny

This project models the two pieces of logic in `js/main.js` of the car
landing page that are more than DOM wiring:

- **The gallery and its lightbox.** A fixed catalog of nine images
  (`galleryImages`) is filtered by category. `'all'` keeps every image. The
  grid renderer (`populateGallery`) and the lightbox (`initLightbox`) apply
  the same filter. Clicking a tile rebuilds the lightbox's list
  (`filteredImages`) under the active filter. It then finds the clicked image
  with `findIndex`, which gives -1 when the image is absent. `nextImage` and
  `prevImage` step through the list circularly with JavaScript's `%`.
  `closeLightbox` hides the overlay and keeps the list and the index.
- **The configurator.** Three option groups (model, wheels, package) each
  store the price of their selected choice. The defaults are 37000, 0 and 0.
  A choice's `data-price` attribute is read with
  `priceValue ? parseInt(priceValue, 10) || 0 : 0`. After every click the
  display shows the sum of the three prices.

The page keeps this state in closure variables and in the DOM: which filter
button is `active`, and which image the overlay shows. Here that state is an
immutable record, and each handler is a pure function from state to state.

Opening on a `src` that the rebuilt list lacks does not fail. `findIndex`
gives -1, the page stores it, and the overlay opens on the clicked `src`
(js/main.js:466-468). See `Gallery.OpenImage` and `Gallery.OpenMissing`.

Files:

- `wrappers.dfy`: `Option`. It stands for NaN and for an absent attribute.
- `js_numbers.dfy`: the JavaScript number behaviour the page depends on.
  This is `parseInt` with radix 10: leading whitespace as ECMAScript defines
  it, one optional sign, the longest run of ASCII digits, and NaN when there
  are no digits. It also covers the truncating `%` and integer `toString()`.
- `gallery.dfy`: the catalog, the filter, `findIndex`, the lightbox
  transitions, an event-level `Step`/`Run`, and the invariant they keep.
- `configurator.dfy`: the price reducer, its replay over a sequence of
  clicks, and the price parsing fallback.

## Model

| member | source | states |
|---|---|---|
| Gallery.Filter | js/main.js:460-463 | The lightbox list holds an image exactly when the catalog holds it and the filter keeps it ('all', or an equal category). It is never longer than the catalog. |
| Gallery.FilterAll | js/main.js:401 | The 'all' filter returns the catalog unchanged. |
| Gallery.FilterIsSubsequence | js/main.js:460-463 | The filtered list keeps catalog order: it is a subsequence of the catalog. |
| Gallery.FilterCounts | js/main.js:460-463 | Every occurrence of a kept image survives, and no occurrence of any other image does. |
| Gallery.FilterAppend | js/main.js:400-401 | Filtering a concatenation gives the concatenation of the filtered parts. |
| Gallery.RenderGrid | js/main.js:397-424 | The grid renderer's loop, which appends one tile per kept image, builds exactly the list the lightbox's `filter` call computes. |
| Gallery.CatalogDistinct | js/main.js:381-391 | No two catalog images share a `src`. |
| Gallery.FilterKeepsDistinct | js/main.js:460-463 | Filtering a list whose sources are pairwise distinct gives a list whose sources are pairwise distinct. |
| Gallery.FindIndex | js/main.js:466 | `findIndex` returns a value in [-1, n). It is -1 exactly when no image has the `src`. Otherwise it is the first position holding that `src`. |
| Gallery.FindIndexUnique | js/main.js:466 | When sources are distinct, the position found for an image's `src` is that image's own position. |
| Gallery.NextIndex | js/main.js:486 | For n > 0 and i >= -1, `(i + 1) % n` with JavaScript's `%` lies in [0, n) and equals the Euclidean remainder. |
| Gallery.PrevIndex | js/main.js:492 | For n > 0 and i >= -1, `(i - 1 + n) % n` lies in [0, n). For i in [0, n) the left operand is non-negative, so JavaScript's `%` and Dafny's `%` agree. |
| Gallery.NextFromNotFound | js/main.js:486 | From the not-found index -1, next lands on position 0. |
| Gallery.PrevFromNotFound | js/main.js:492 | From the not-found index -1, previous lands on position n - 2, or 0 when n = 1. That equals (-1 - 1 + n) mod n: JavaScript's `-0` indexes element 0. |
| Gallery.NextPrevInverse | js/main.js:486-492 | On indices in [0, n), previous undoes next and next undoes previous. |
| Gallery.NextIndexTimesMod | js/main.js:486 | k forward steps from i land on (i + k) mod n. |
| Gallery.PrevIndexTimesMod | js/main.js:492 | k backward steps from i land on (i - k) mod n. |
| Gallery.IndexCycle | js/main.js:486-492 | n steps in either direction return to the starting index. |
| Gallery.SelectFilter | js/main.js:430-439 | A filter click changes the active filter, so the grid becomes the filtered catalog. The lightbox's list, index, visibility and image stay as they were. |
| Gallery.OpenImage | js/main.js:455-470 | Opening rebuilds the list under the active filter, shows the clicked `src` and opens the overlay. The index lies in [-1, n). It is -1 exactly when the list lacks that `src`. Otherwise it is the first position holding it, as `findIndex` gives. |
| Gallery.Next | js/main.js:485-489 | On a non-empty list, next sets the index to (i + 1) mod n, shows the image at that index, and changes nothing else. |
| Gallery.Prev | js/main.js:491-495 | On a non-empty list with index i >= -1, previous sets the index to (i - 1 + n) mod n, shows the image at that index, and changes nothing else. From -1 this gives n - 2, or 0 when n = 1. |
| Gallery.Close | js/main.js:480-483 | Closing hides the overlay and keeps the list, the index, the filter and the displayed image. |
| Gallery.Step | js/main.js:497-521 | Every user event preserves the invariant: an open lightbox has an index inside its list and shows the image at that index. |
| Gallery.Run | js/main.js:497-521 | Any sequence of events preserves the same invariant. |
| Gallery.Initial | js/main.js:448-449 | The load state: the 'all' filter (the first `populateGallery()` at line 427), an empty lightbox list, index 0, overlay closed. It is a constant, specified by `Gallery.InitialInv`. |
| Gallery.InitialInv | js/main.js:448-449 | At load the 'all' filter is active, the grid is the whole catalog, the lightbox is closed and the invariant holds. |
| Gallery.ReachableInv | js/main.js:448-449 | From page load onward, whatever the user does, an open lightbox never holds -1 or an empty list. So `filteredImages[currentImageIndex].src` never reads past the list. |
| Gallery.TileClickOpensTile | js/main.js:456-466 | Clicking the tile at position p of the grid opens the lightbox on the grid's list, at index p, showing that tile's image. |
| Gallery.NextPrevRestore | js/main.js:485-495 | On an open lightbox, previous after next (and next after previous) restores the whole state. |
| Gallery.NextTimes | js/main.js:485-489 | Repeated next keeps the list, the filter and visibility, and shows the image at the current index. |
| Gallery.NextCycle | js/main.js:485-489 | Pressing next once per image returns an open lightbox to exactly its starting state. |
| Gallery.PrevTimes | js/main.js:491-495 | Repeated previous keeps the list, the filter and visibility, and shows the image at the current index. |
| Gallery.PrevCycle | js/main.js:491-495 | Pressing previous once per image returns an open lightbox to exactly its starting state. |
| Gallery.NextWraps | js/main.js:486 | Stated without the modulus: next moves one place on, and from the last image wraps to the first. |
| Gallery.PrevWraps | js/main.js:492 | Stated without the modulus: previous moves one place back, and from the first image wraps to the last. |
| Gallery.OpenMissing | js/main.js:466 | Opening on a `src` the filter does not keep leaves the index at -1. Next then shows position 0. Previous shows position n - 2, or 0 when n = 1. |
| Gallery.ExteriorImages | js/main.js:381-391 | The 'exterior' filter keeps catalog entries 0, 1, 2 and 7, in that order. |
| Gallery.ExteriorWalk | js/main.js:460-487 | With 'exterior' active, clicking the second tile shows "Side Profile". Next then shows "Rear Angle", then "Night Shot", then wraps to "Front View". |
| JsNumbers.JsRem | js/main.js:486 | JavaScript's `%` with a positive divisor: the remainder takes the dividend's sign, is smaller than the divisor in magnitude, and differs from the dividend by a multiple of it. It equals Dafny's `%` when the dividend is non-negative. |
| JsNumbers.NaturalString | js/main.js:171 | A natural number's decimal digits are non-empty, all digits, without leading zeros, and their value is the number. |
| JsNumbers.ParseInt | js/main.js:182 | `parseInt(value, 10)`, with NaN as `None`. The definition has no contract of its own. It is specified by lemmas. `JsNumbers.SkipWhitespaceDropsWhitespace` and `JsNumbers.SkipWhitespaceOf` say exactly the leading whitespace is skipped. `JsNumbers.ParseIntOfDecimal` says what is read, `JsNumbers.ParseIntWithoutLeadingDigits` when the result is NaN, and `JsNumbers.ParseIntIgnoresTail` what is ignored. |
| JsNumbers.DecimalString | js/main.js:171 | `totalPrice.toString()` for an integer. The definition has no contract of its own. It is specified by `JsNumbers.DecimalStringCanonical` and `JsNumbers.CanonicalDecimalUnique`. |
| JsNumbers.DecimalStringCanonical | js/main.js:171 | The text is the integer's decimal notation: digits without a leading zero (except "0") whose value is the number, after a `-` exactly when it is negative. |
| JsNumbers.CanonicalDecimalUnique | js/main.js:171 | Any text in that notation is exactly `toString()`'s text, so the notation determines the string. |
| JsNumbers.ParseIntOfDecimal | js/main.js:182 | `parseInt` reads whitespace, an optional sign, a run of decimal digits and any tail that starts with a non-digit as the signed value of the digits. Leading zeros are allowed, so "042000" reads as 42000. |
| JsNumbers.ParseIntOfDecimalString | js/main.js:171 | `parseInt` reads back any integer's `toString()`. |
| JsNumbers.ParseIntWithoutDigits | js/main.js:182 | A string with no digit in it is NaN to `parseInt`. |
| JsNumbers.ParseIntWithoutLeadingDigits | js/main.js:182 | Whitespace, then an optional sign, then anything that is not a digit, gives NaN. Without a sign, the first character after the whitespace must not be a sign either. This covers `"abc123"`, `"$42000"`, `"- 5"` and `"+-5"`. |
| JsNumbers.ParseIntIgnoresTail | js/main.js:182 | Once the digits have ended, text appended afterwards does not change the result. |
| Configurator.Total | js/main.js:161-164 | The sum the display shows. The definition has no contract of its own. It is specified by `Configurator.SelectTotal` and `Configurator.ClicksDetermineState`. |
| Configurator.PriceOf | js/main.js:182 | The price read from a choice's `data-price`: 0 when the attribute is absent or empty, and 0 when `parseInt` gives NaN or 0. A non-zero price is exactly what `parseInt` read from a present attribute. Whenever `parseInt` reads a number, that number is the price. |
| Configurator.Init | js/main.js:154-158 | The configurator at load: options 37000, 0 and 0, and the total rendered by the first `updatePrice()` (line 213). It is a constant, specified by `Configurator.InitialTotal`. |
| Configurator.Select | js/main.js:177-209 | A click stores its own group's price from its attribute, leaves the other two groups unchanged, and re-renders the sum. |
| Configurator.Run | js/main.js:177-213 | A display that agrees with the options keeps agreeing after any sequence of clicks. |
| Configurator.InitialTotal | js/main.js:154-158 | The page opens showing 37000. |
| Configurator.ClicksDetermineState | js/main.js:154-213 | After any clicks from page load, each group holds its latest choice's price, or its default when it has none. The display shows model + wheels + package. |
| Configurator.SelectIdempotent | js/main.js:182 | Repeating a click with the same attribute changes nothing. |
| Configurator.SelectCommutes | js/main.js:177-209 | Clicks in different groups can be swapped without changing the result. |
| Configurator.SelectTotal | js/main.js:161-164 | A click changes the total by exactly the change in its own group's price. |
| Configurator.PriceOfDecimal | js/main.js:182 | A `data-price` holding a decimal integer, possibly followed by a non-digit suffix, gives exactly that integer. |
| Configurator.PriceOfDigits | js/main.js:182 | A `data-price` of whitespace, an optional sign and decimal digits, zero-padded ones included, then a non-digit or nothing, gives the signed value of the digits. |
| JsNumbers.SkipWhitespaceDropsWhitespace | js/main.js:182 | Everything `parseInt` skips in front of the number is StrWhiteSpaceChar. |
| JsNumbers.SkipWhitespaceOf | js/main.js:182 | A whitespace prefix in front of a non-whitespace start is exactly what is skipped. |
| Configurator.PriceOfDecimalText | js/main.js:182 | A `data-price` whose text is exactly an integer's `toString()` gives that integer. |
| Configurator.PriceOfFallback | js/main.js:182 | An absent attribute, an empty one, or one with no digit anywhere gives 0. `Configurator.PriceOfNoLeadingDigits` covers the remaining NaN cases. |
| Configurator.PriceOfNoLeadingDigits | js/main.js:182 | A `data-price` with no digit right after its whitespace and optional sign (`"abc123"`, `"$42000"`, `"- 5"`) gives 0. |
| Configurator.TotalNonNegative | js/main.js:161-164 | When every price on offer is non-negative, the displayed total is never negative. |
| Configurator.FallbackText | js/main.js:168-172 | The fallback display text is the total's decimal notation, which by `JsNumbers.CanonicalDecimalUnique` is exactly `toString()`'s text. `parseInt` reads it back as the total. |
| Configurator.ModelAndUnpricedWheels | js/main.js:182-194 | A model priced "42000" followed by wheels without a `data-price` shows 42000. |

## Left out

- DOM mutation is not modelled: class toggling, `innerHTML`, styles, selector lookups and listener registration. Tabs, feature hotspots, the colour customizer, the mobile menu and the back-to-top button only toggle classes.
- Timers, `requestAnimationFrame` and `IntersectionObserver` are not modelled. They drive lazy loading, counters, the chat bubble, page transitions and the loading animation, and only schedule work.
- Floating-point presentation maths is not modelled: counters, the progress bar, parallax, the cursor, the circular progress and the 360-degree viewer.
- `Math.random` particles, the AOS and Swiper libraries, the image-preload counting before Swiper starts, and sound playback are not modelled. They are third-party code, randomness or media I/O.
- `Intl.NumberFormat` is a locale service outside the page. Only the fallback text of `updatePrice`'s catch branch is modelled (`Configurator.FallbackText`). The `console.error` logging is not modelled.
- Form submission is left out. It is DOM and string templating around a truthiness check on name and email.
- JavaScript numbers are doubles. `parseInt` loses precision past 2^53, and `toString()` switches to exponent notation from 1e21. The model uses unbounded integers, so it describes prices below those sizes.
- The grid's `data-aos-delay` value `(index % 5) * 100` only sets an animation delay.
- The markup is not part of this model. `Gallery.Initial` assumes that the filter button marked active at load is the 'all' one, matching the initial `populateGallery()`.
- The model also assumes that a tile's `src` attribute reads back as the catalog's `src`. A missing `.filter-btn.active` element, which makes the lightbox handler throw, is not modelled.
- A filter button without `data-filter` makes the grid empty, as a filter value matching no category does. The model only has string filter values.
- Gallery.Next: requires a non-empty list and an index of at least -1. On an empty list the page computes `% 0`, gets NaN, and throws on `filteredImages[NaN].src`. `Gallery.ReachableInv` shows that no reachable open lightbox violates this.
- Gallery.Prev: has the same precondition as `Gallery.Next`, for the same reason.
- Gallery.Step: clicks on the lightbox's next, previous and close controls are no-ops while the overlay is hidden, because the controls sit inside it. Key presses are ignored while it is hidden, as the page does. A tile position past the end of the grid is a no-op.
