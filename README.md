# Bookmark manager, modelled in Dafny

A model of the bookmark list manager of a small browser application
(`index.js`). The manager keeps an ordered in-memory list of `{name, url}`
records and a copy of that list in local storage under the key `bookmarks`.
Adding a bookmark runs a short-circuiting validation pipeline. An empty field,
a name shorter than 3 characters, or a URL the pattern refuses each raise the
validation alert. A name or URL that equals an existing one, ignoring letter
case, is refused without an alert. An accepted entry has the first character
of its name upper-cased, is appended, and the whole list is written to
storage. Deleting removes one position with `splice(index, 1)` and rewrites
storage.

Three modules:

- `JsText` (`text.dfy`): the JavaScript string behaviour the manager relies
  on. It covers the `\s` whitespace class (which is also what `trim` strips),
  line terminators, ASCII `toLowerCase`/`toUpperCase`, `trim`, and the
  `charAt(0).toUpperCase() + slice(1)` capitalisation.
- `UrlPattern` (`url.dfy`): `isValidURL`. The pattern
  `^(https?:\/\/)[^\s/$.?#].[^\s]*$` with the `/i` flag is written as the
  deterministic automaton that recognises it (`Step`, `Run`). It is proved
  equal to a declarative description of the same language (`UrlShape`).
- `Bookmarks` (`bookmarks.dfy`): the `Bookmark` record and the list
  invariants. `Distinct` says no two entries share a lower-cased name or a
  lower-cased URL. `AllWellFormed` says every entry has a name of at least 3
  characters whose first character is not a lower-case letter, and a valid
  URL. The module also holds `splice` semantics, the live field verdicts of
  `validateInput`, and the class `BookmarkStore`. That class has the list
  (`bookmarks`), the storage slot (`stored`, `None` while the key is absent)
  and the number of alerts shown (`alerts`).

Three details of the code matter:

- The pattern's unescaped `.` follows the URL's first character after the
  scheme. It takes any character except a line terminator, a space included.
  A URL therefore needs at least two characters after the scheme, and the
  second of them may be a space.
- `deleteBookmark` does no bounds check of its own. The model gives the exact
  `splice(index, 1)` behaviour for every integer index: a negative index
  counts from the end, and an index past the end removes nothing. Storage is
  rewritten in every case.
- `addBookmark` itself tests the raw `name.length` and the raw emptiness. The
  trimming happens in the submit handler (`BookmarkStore.Submit`).

Taking the URL field's value to be the text as typed, the live URL verdict
judges that raw text while submission judges the trimmed text, so the two can
disagree. `TrailingSpaceShownValidButRefused` and
`LeadingSpaceShownInvalidButAccepted` state the two directions.

## Model

| member | source | states |
|---|---|---|
| JsText.LowerChar | index.js:57 | `toLowerCase` of one character: never an upper-case ASCII letter, and only upper-case ASCII letters change |
| JsText.UpperChar | index.js:65 | `toUpperCase` of one character: never a lower-case ASCII letter, only lower-case letters change, and lower-casing the result equals lower-casing the input |
| JsText.Lower | index.js:57 | lower-casing a string keeps its length and lower-cases each character in place |
| JsText.Capitalize | index.js:65 | the capitalised name has the same length, an upper-cased first character, the same characters after the first, and the same lower-cased form as the original |
| JsText.Trim | index.js:22-23 | `trim` returns a contiguous middle part of the input that neither starts nor ends with whitespace, and everything cut from either end is whitespace |
| JsText.TrimOfTrimmed | index.js:22-23 | a string with no whitespace at either end is its own trim |
| JsText.TrimLength | index.js:22-23 | `trim` of an all-whitespace string is empty; otherwise its length is the input's length less the leading and the trailing whitespace |
| JsText.TrimIdempotent | index.js:22-23 | trimming twice gives the same result as trimming once |
| UrlPattern.DeadStays | index.js:34 | once the match has failed, no further input makes it succeed |
| UrlPattern.TailAccepts | index.js:34 | the trailing `[^\s]*$` accepts exactly the strings that contain no whitespace |
| UrlPattern.HostAccepts | index.js:34 | after the scheme the matcher accepts exactly a host-start character, one non-line-terminator, then no whitespace |
| UrlPattern.SepAccepts | index.js:34 | inside `://` the matcher accepts exactly the rest of the separator followed by an acceptable host part |
| UrlPattern.OptSAccepts | index.js:34 | at the optional `s` the matcher accepts an `s` or `S` followed by `://`, or `:` followed by `//`, each followed by an acceptable host part |
| UrlPattern.SchemeAccepts | index.js:34 | inside `http` the matcher accepts exactly the remaining letters in either case, then what the optional `s` accepts |
| UrlPattern.IsValidURLCharacterised | index.js:33-36 | `isValidURL(u)` holds exactly when `u` starts with `http://` or `https://` in any letter case, then has a character that is neither whitespace nor `/ $ . ? #`, then a non-line-terminator, then no whitespace |
| UrlPattern.UpperCaseSchemeAccepted | index.js:34 | the `/i` flag admits an upper-case scheme (`HTTP://ab`) |
| UrlPattern.SpaceAfterHostStartAccepted | index.js:34 | the unescaped `.` admits a space as the second character after the scheme |
| UrlPattern.OtherSchemesRejected | index.js:34 | `ftp://…` is refused, and so are `https://` and `https://a`, which have fewer than two characters after the scheme |
| Bookmarks.AcceptableInputCharacterised | index.js:40-53 | the three alerting checks of `addBookmark` pass exactly when the name has at least 3 characters and the URL has the shape `isValidURL` accepts |
| Bookmarks.NameFieldValidCharacterised | index.js:177 | the live name verdict holds exactly when at least 3 characters lie between the leading and the trailing whitespace |
| Bookmarks.UrlFieldValidCharacterised | index.js:189 | the live URL verdict accepts exactly the URL shape, so an accepted value starts with `h` or `H` and has at least 9 characters |
| Bookmarks.ClashesIgnoresCase | index.js:57 | whether an entry clashes with a new name and URL depends only on their lower-cased forms, and an entry clashes with its own name and with its own URL |
| Bookmarks.ClashesWithAnyAppend | index.js:56-58 | the duplicate test against a list with one more entry succeeds exactly when it succeeds against the shorter list or against the new entry |
| Bookmarks.NewEntry | index.js:65-66 | an accepted entry is well formed, keeps the URL exactly as given, and its name has the input's length, lower-cased form and characters after the first |
| Bookmarks.AppendPreservesDistinct | index.js:56-66 | appending an accepted entry that clashes with no existing entry keeps the list free of case-insensitive duplicates, and afterwards every input with the same name (whatever its URL) and every input with the same URL (whatever its name) is a duplicate |
| Bookmarks.SpliceOne | index.js:138 | `splice(index, 1)` removes one entry when the start is inside the list (one shorter, entries before it unchanged, entries after it shifted down by one) and leaves the list unchanged otherwise |
| Bookmarks.SplicePreservesDistinct | index.js:137-139 | deleting at any index keeps the list free of case-insensitive duplicates |
| Bookmarks.SplicePreservesWellFormed | index.js:137-139 | deleting at any index keeps every remaining entry well formed |
| Bookmarks.SpliceInRange | index.js:137-138 | for `-n <= i < n`, deletion removes the entry at position `k = i mod n` (from the back when `i` is negative): the result is `old[..k] + old[k+1..]`, one shorter, and loses exactly the one entry `old[k]` |
| Bookmarks.SpliceOutOfRange | index.js:138 | an index at or past the end removes nothing, and an index before `-n` removes the first entry of a non-empty list |
| Bookmarks.NameVerdictsAgree | index.js:177 | the live name verdict (trimmed length at least 3) accepts exactly the names that submission's emptiness and length checks accept after trimming |
| Bookmarks.UrlVerdictsAgree | index.js:189 | a URL the live verdict accepts and that does not end in whitespace is also accepted on submission after trimming |
| Bookmarks.TrailingSpaceShownValidButRefused | index.js:189 | `https://` followed by a host character and a space is shown as valid, but refused on submission once trimmed |
| Bookmarks.LeadingSpaceShownInvalidButAccepted | index.js:189 | a valid URL typed with a leading space is shown as invalid, but accepted on submission once trimmed |
| Bookmarks.BookmarkStore.Load | index.js:11-17 | page load: the list is the stored one when the key is present and empty otherwise, and no alert has been shown; on a first run the list satisfies the invariants that `Add` and `Delete` preserve |
| Bookmarks.BookmarkStore.IsDuplicate | index.js:56-58 | the `some` scan reports a duplicate exactly when some existing entry has the same lower-cased name or the same lower-cased URL |
| Bookmarks.BookmarkStore.Add | index.js:39-71 | invalid input: refused with one alert, list and storage unchanged. Duplicate: refused without an alert, list and storage unchanged. Otherwise: accepted, capitalised entry appended, storage equals the new list. The invariants `Distinct` and `AllWellFormed` are preserved |
| Bookmarks.BookmarkStore.Delete | index.js:137-141 | the list becomes `splice(index, 1)` of the old list, storage equals the new list, no alert, and the invariants are preserved |
| Bookmarks.BookmarkStore.Submit | index.js:20-31 | the submit handler behaves as `Add` on the trimmed name and URL, with the same three outcomes, and preserves the invariants |

## Left out

- `renderBookmarks` (index.js:144-164) is not modelled. It builds DOM rows and is presentation only. The calls to it after an add or a delete are not modelled either.
- `showAlert` (index.js:88-134) is modelled only as the counter `alerts`. The pop-up's content is static presentation.
- `resetValidationStates` and the class and icon toggling in `validateInput` (index.js:73-85, 171-201) are not modelled. They are DOM styling. Only the two verdicts (`NameFieldValid`, `UrlFieldValid`) are kept.
- Clearing the form fields after a successful submission (index.js:26-29) is not modelled, because the fields are DOM state.
- `localStorage` and `JSON.stringify`/`JSON.parse` (index.js:12-14, 67, 139) are modelled as a stored copy of the list. The serialiser is foreign code, so the JSON round trip is taken as exact.
- The crash on malformed stored data (index.js:14) is not modelled.
- A stored empty string, which `if (savedBookmarks)` would treat as absent, is not modelled. The manager never writes one.
- Page load does not check the stored list. `Add`, `Delete` and `Submit` therefore state their invariants as "preserved if they held before", not as an object invariant.
- The event listener wiring (index.js:11, 20, 167-168) is host plumbing and is not modelled.
- JsText.LowerChar: maps only the ASCII letters. `toLowerCase` also maps non-ASCII letters, so the duplicate check is modelled only for ASCII case differences.
- JsText.UpperChar: maps only the ASCII letters, so capitalising a name that starts with a non-ASCII letter (which `toUpperCase` may change, sometimes into two characters) is not modelled.
- UrlPattern.IsValidURLCharacterised: the pattern's positions are counted in code points here, not in UTF-16 code units. The pattern has no `u` flag, so JavaScript matches it against code units, and `https://` followed by one character outside the Basic Multilingual Plane passes there (one surrogate fills `[^\s/$.?#]`, the other fills `.`). The model refuses that string.
- Bookmarks.BookmarkStore.Add: the preservation of `Distinct` rests on ASCII case mapping. With full Unicode mapping the program can break the invariant: add `ssxx` (stored as `Ssxx`), then add `ßxx` with another URL. `"ßxx".toLowerCase()` is `ßxx`, so the duplicate scan finds nothing, but the stored name `SSxx` lower-cases to `ssxx`, the same as the first entry's.
- Bookmarks.TrailingSpaceShownValidButRefused, Bookmarks.LeadingSpaceShownInvalidButAccepted and Bookmarks.UrlFieldValid assume that the URL field is a plain text input whose `value` is the raw typed text. The form's markup is not part of this model. An `<input type="url">` would strip line breaks and surrounding whitespace from `value`, and both divergences would then disappear.
- Lengths are counted in Unicode scalar values, not UTF-16 code units as JavaScript's `length` does. The two differ only for characters outside the Basic Multilingual Plane.
