# Kagape Café site script — a Dafny model

This project models the parts of the café website's browser script
(`script.js`) whose behaviour can be stated: the customer-review board (a
bounded, newest-first list of reviews kept in one browser storage slot, its
submit and delete handlers, and the two rendered views), the rendering
helpers (`escapeHtml`, `renderStars`, the side panel's shortened text), the
contact form's client-side checks (`validateEmail` and the check order), and
the slideshow's index and pause state.

Files and modules:

- `wrappers.dfy` — `Wrappers.Option`, for absent form fields and NaN.
- `js_text.dfy` — `JsText`: the JavaScript white-space set, `trim`, and
  `parseInt` without a radix (sign, `0x` prefix, longest digit run, NaN),
  plus the decimal numeral a template literal `${n}` produces.
- `html.dfy` — `Html`: `escapeHtml` with its partner `Unescape` (what the
  browser displays), `renderStars` as a method with its loop, and the side
  panel's text shortening.
- `reviews.dfy` — `Reviews`: the review record, the storage slot
  (`Missing | Unparsable | Saved(list)`, where `Load` yields `[]` for the
  first two), the add and delete operations as functions, the handlers as
  methods of class `ReviewBoard` whose `slot` field they read and overwrite,
  and the projection of the list onto the full list and the side panel.
- `contact.dfy` — `Contact`: the e-mail pattern as a reference predicate,
  `ValidEmail` proved equal to it, the check order of the contact form's
  submit handler, and the feedback class.
- `slideshow.dfy` — `Slideshow`: class `Slides` with the index, the paused
  flag and the active slide; pure functions for the index after ticks; and
  the wrap-around definition the code's comment describes.

Where the code's behaviour differs from what its comments or a reader
would expect, the model follows the code:

- A whitespace-only reviewer name is stored as `""`, not `Anonymous`:
  `Anonymous` replaces only an empty raw value, and trimming comes after.
- An unparsable rating is stored as NaN (`None` here, `null` once
  serialised) and merely rendered as zero stars; it is not clamped when
  stored.
- The 20-entry cap is one `pop` per submission: a list loaded over 20
  entries keeps its length instead of being cut to 20.
- A delete index that does not parse (NaN) passes the range guard, and
  `splice` then acts on index 0. Rendered buttons never carry such an index
  (`DeleteRenderedRow`).
- The slideshow index never wraps around (see Findings).
- A submission on an unparsable storage slot replaces it with a one-entry
  list; a no-op submission or delete leaves the slot as it was.

## Model

| member | source | states |
|---|---|---|
| `JsText.TrimIsMaximalSlice` | script.js:230-232 | `trim` yields a contiguous slice of its input; all that is cut is white space; the result neither starts nor ends with white space |
| `JsText.TrimEmptyIffAllSpace` | script.js:230 | a string trims to empty exactly when every character is white space |
| `JsText.TrimUntouched` | script.js:232 | text whose ends are not white space is left unchanged by `trim` |
| `JsText.TrimIdempotent` | script.js:232 | trimming twice is trimming once |
| `JsText.TrimStartSkipsSpace` | script.js:229 | `parseInt`'s leading-space skip stops at the first character that is not white space |
| `JsText.ParseIntSignedNumeral` | script.js:229 | `parseInt` on optional white space, optional `-`, a decimal numeral and trailing text that does not continue it yields the signed value |
| `JsText.ParseIntDecimal` | script.js:200 | `parseInt` reads back the numeral `${n}` as `n` |
| `JsText.ParseIntNaN` | script.js:229 | a number that starts with no digit gives NaN |
| `Html.EscapeHtml` | script.js:220-222 | the escaped output has no `<`, `>`, `"` or `'` and is at least as long as the input |
| `Html.EscapeConcat` | script.js:220-222 | escaping works character by character: it distributes over concatenation |
| `Html.EscapeIdentityIffPlain` | script.js:220-222 | escaping leaves a string unchanged exactly when it has none of the five special characters |
| `Html.EscapeNotIdempotent` | script.js:221 | escaping `&` twice gives `&amp;amp;`, not `&amp;` |
| `Html.UnescapeEscape` | script.js:220-222 | decoding the five entities in escaped text gives back the original text, so stored text is shown, never interpreted |
| `Html.EscapeScriptTag` | script.js:221 | `<script>` is escaped to `&lt;script&gt;` |
| `Html.RenderStars` | script.js:211-218 | exactly five glyphs inside the span; glyph `i` is filled exactly when `i` is below the rating clamped to [0,5]; NaN counts as 0 |
| `Html.FilledCountClamps` | script.js:212-215 | a rating of 7 fills 5 stars, -1 and NaN fill none, 0 to 5 fill that many |
| `Html.ShortText` | script.js:189 | side text is at most 100 characters: unchanged when it fits, otherwise its first 97 characters and `...` |
| `Html.ShortTextIdempotent` | script.js:189 | shortening twice is shortening once |
| `Reviews.NewReviewName` | script.js:226-232 | an absent or empty name becomes `Anonymous`; a whitespace-only name becomes `""`; a stored name has no surrounding white space |
| `Reviews.NewReviewText` | script.js:227-232 | the stored text is trimmed and is empty exactly when the field holds only white space |
| `Reviews.NewReviewRating` | script.js:228-232 | the rating is 1 when nothing is checked and the parsed checked value otherwise; the timestamp is the submission time |
| `Reviews.StorageStartsOver` | script.js:147-152 | absent or unparsable storage loads as the empty list, so a submission over it saves just the new review; a saved list loads back as it was |
| `Reviews.AddReview` | script.js:232-233 | the new review is first, the old ones follow in order, one tail entry is dropped only past 20; a list within 20 stays within 20, an oversized one keeps its length |
| `Reviews.DeleteAt` | script.js:202-204 | out of range or declined leaves the list; otherwise exactly the entry at the index is removed and the others keep their order |
| `Reviews.SubmitAllKeepsNewest` | script.js:231-234 | from a list of at most 20, any run of submissions leaves the newest first followed by the older list, cut to 20 |
| `Reviews.ManySubmissionsKeepTwenty` | script.js:231-234 | after more than 20 submissions the list is exactly the 20 most recent, newest first |
| `Reviews.RenderShowsRows` | script.js:158-181 | the placeholder appears exactly for an empty list; otherwise one row per review in order, showing its name and text as plain text, its delete index reading back as its position |
| `Reviews.RenderShowsSide` | script.js:183-192 | the side panel shows the first three reviews in order, with shortened text |
| `Reviews.RenderIsInert` | script.js:171-191 | no rendered name or text contains `<`, `>`, `"` or `'` |
| `Reviews.ReviewBoard.Submit` | script.js:224-237 | text empty after trimming leaves the slot and the form as they were; otherwise the slot holds the loaded list with the new review added and the form is reset |
| `Reviews.ReviewBoard.Delete` | script.js:199-207 | an index out of range or a declined confirmation leaves the slot; otherwise the list without the entry at the index is saved; a NaN index acts on entry 0 |
| `Reviews.DeleteRenderedRow` | script.js:171-204 | the button of rendered row `i` deletes exactly review `i` once confirmed |
| `Reviews.FirstReviewScenario` | script.js:224-233 | submitting `Ada`, `Great coffee!`, rating 5 on an empty board gives exactly that one review |
| `Reviews.SingleReviewShown` | script.js:163-195 | a one-review board shows one row and one side entry, not the placeholder |
| `Contact.ValidEmailMatchesPattern` | script.js:71-74 | `ValidEmail` accepts exactly the strings `/^[^\s@]+@[^\s@]+\.[^\s@]+$/` matches |
| `Contact.ValidEmailShape` | script.js:71-74 | a valid address has no white space and exactly one `@`, not at the start |
| `Contact.ValidEmailAccepts` | script.js:73 | `a@b.c` passes |
| `Contact.ValidEmailRejects` | script.js:73 | `a@b`, `@b.c` and `a@b@c.d` fail |
| `Contact.CheckContact` | script.js:79-92 | any field empty after trimming is reported first whatever the address; otherwise a non-matching address is reported; otherwise the trimmed values go on |
| `Contact.BlankFieldIsMissing` | script.js:80-88 | a whitespace-only name counts as missing |
| `Contact.Rejection` | script.js:85-91 | a failed check shows an error message; only a passing check shows none |
| `Contact.RejectionShownAsError` | script.js:66-91 | both failed checks are shown, and always under the class `form-feedback error` |
| `Slideshow.TicksNeverWrap` | script.js:12-16 | from any slide, `k` unpaused ticks move the index exactly `k` forward |
| `Slideshow.RunsPastLastSlide` | script.js:12-24 | after as many ticks as there are slides, counted from the first, the index is past the end and no slide is shown |
| `Slideshow.WrappedIndex` | script.js:13-14 | the index the comment intends always lies within the slide list |
| `Slideshow.WrappedTicksCycle` | script.js:13-16 | with wrap-around, `k` ticks from slide `i` land on slide `(i + k) mod count`, which is always shown |
| `Slideshow.Slides.constructor` | script.js:7-41 | the slideshow starts unpaused on the first slide |
| `Slideshow.Slides.ShowSlide` | script.js:12-25 | a negative `n` selects the last slide and any other `n` is taken as it is, even past the end; the active slide follows the index |
| `Slideshow.Slides.NextSlide` | script.js:27-29 | the index goes up by one |
| `Slideshow.Slides.Tick` | script.js:54-56 | an unpaused tick advances the index by one; a paused tick changes nothing |
| `Slideshow.Slides.MouseEnter` | script.js:44-46 | entering the container pauses the slideshow and changes nothing else |
| `Slideshow.Slides.MouseLeave` | script.js:48-50 | leaving the container resumes it and changes nothing else |

## Findings

| source | as written | input that shows it | evidently intended | confidence | as-written member | corrected member |
|---|---|---|---|---|---|---|
| script.js:12-16 | line 14 sets the index to 0 when `n >= slides.length`, but the `if`/`else` on lines 15-16 then sets it to `n`; the index runs past the last slide, `slides[n]` is `undefined` and adding its class throws, so no slide is shown from then on as ticks keep counting up | three slides: after three ticks from the first slide the index is 3 and no slide is active | out-of-range indices wrap around (to 0 past the end, to the last slide below 0) and the slideshow cycles | not executed | `Slideshow.RunsPastLastSlide` | `Slideshow.WrappedTicksCycle` |

The class `Slideshow.Slides` models the code as written, since that is what
the page does; `Slideshow.WrappedIndex` is the corrected definition and
`Slideshow.WrappedTicksCycle` proves the intended cycling about it.

## Left out

- DOM work: the `innerHTML` templates, `classList` changes, event-listener
  registration, the character counter and the side-panel collapse toggle.
  The views are modelled as data (`Reviews.View`) holding the escaped
  fields; the stars of a row are what `Html.RenderStars` gives for its rating.
- `localStorage` and `JSON.parse`/`JSON.stringify`: the slot is a datatype,
  so byte-identical re-serialisation is not modelled. Stored JSON that parses
  but is not an array of review records (`null`, an object, records with
  non-string fields) is not modelled; every stored name and text is a string.
- `fetch`, `FormData`, the JSON error extraction, the `mailto:` redirect,
  `encodeURIComponent`, the submit button's disabled state and logging: I/O.
  The model stops at the outcome of the checks.
- `confirm()` is the `confirmed` parameter; `new Date().toISOString()` is the
  `now` parameter; `toLocaleString()` is not modelled and a row keeps the raw
  timestamp; `setInterval` is the `Tick` method.
- The slideshow's dots are taken to be one per slide; their `active` class
  follows the slide's.
- Early returns when the page has no slideshow, no contact form or no review
  list are not modelled, beyond the slideshow requiring at least one slide.
- `Html.ShortText`: lengths are counted in Unicode scalar values, while
  JavaScript counts UTF-16 code units (so text with characters outside the
  Basic Multilingual Plane is cut at a different point, and `slice` may split
  a surrogate pair).
- `Html.RenderStars`: `parseInt` of a stored rating is taken to return the
  integer itself; numbers printed in exponent form or beyond 2^53 are not modelled.
- `JsText.ParseIntSignedNumeral`: only integer values are modelled; the
  double-precision rounding of very long numerals is not.
- `JsText.IsJsSpace` lists the Unicode space separators (category Zs) of
  current Unicode versions as a fixed set.
