# CSS colour inspector — a Dafny model of its page-side core

The extension inspects colours on web pages. Its content script runs an
*inspection session*. While the pointer moves, the script samples the
hovered element's text colour, visible background and font. It reports these
samples, throttled, to the extension. A click freezes the session on the last
sample, and a double click or Escape ends it. On request, the same script
scans every element of the page for colour values and sends back the distinct
valid ones. A small colour value class converts computed `rgb`/`rgba` strings
to and from hexadecimal. A translator looks messages up in cached locale
files, with an English fallback.

This project models that core in Dafny and proves what the code promises:

| file | module | models |
|---|---|---|
| `js_text.dfy` | `JsText` | the JavaScript string and number behaviour the code relies on: `\s`, `trim`, `parseInt`, `toString(10/16)`, `padStart(2, "0")`, UTF-16 `length` |
| `color_value.dfy` | `ColorValue` | `utils/color.js`: `parseColor` from the computed string onward, `toRgb`, `toHex` |
| `rgb_hex.dfy` | `RgbHex` | `rgbToHex` of `content.js` |
| `visible_background.dfy` | `VisibleBackground` | `getVisibleBackground`: a reference function and the `while` loop proved equal to it |
| `color_extract.dfy` | `ColorExtract` | `extractColorsFromValue`: the global regular expression as a scanner, a grammar of colour tokens, and the `while (exec)` loop |
| `color_scan.dfy` | `ColorScan` | the `find-colors` scan: the insertion-ordered `Set`, the element and property loops, and the validity filter |
| `inspection.dfy` | `Inspection` | the session state machine: the module-level state as a class `ContentScript`, each handler as a method proved to perform a pure transition function |
| `translator.dfy` | `Translator` | `utils/translator.js`: `getMessage`, and `load` with the network as an oracle |

They are abstracted as follows:
- The browser's computed styles, `elementFromPoint` and the temporary-element
  round trips are parameters: a `Hover` record, `Style` functions and
  `roundTrip`/`computedColor` functions.
- `chrome.runtime.sendMessage` appends to an `outbox` sequence.
  `chrome.storage.local.set({isDetecting: false})` sets the field
  `storedDetecting`.
- `Date.now()` is the `now` argument of each handler. The freeze timer is a
  deadline field, and the event loop reaching it is `OnTimer(now)` (pure form
  `TimerDue`).
- `fetch` plus `response.json()` is an oracle giving the parsed locale file or
  `None`.

## Model

| member | source | states |
|---|---|---|
| JsText.DecimalRoundTrip | utils/color.js:22-34 | `parseInt` reads back what `toString()` writes for every natural number |
| JsText.NatToDecimal | utils/color.js:34 | `toString()` of a natural number is a non-empty digit string, longer than one digit exactly from 10 on |
| JsText.NatToHex | utils/color.js:41 | `toString(16)` is non-empty lower-case hexadecimal, one digit exactly below 16, at most two below 256 |
| JsText.HexRoundTrip | utils/color.js:40-42 | reading `toString(16)` back as hexadecimal gives the number |
| JsText.PadStart2 | content.js:4-6 | `padStart(2, "0")` adds leading zeros up to two characters and keeps the text as its suffix |
| JsText.PadStart2Value | content.js:4-6 | `padStart(2, "0")` keeps the hexadecimal value and makes at least two digits |
| JsText.ByteHex | content.js:4-6 | every value in 0..255 becomes exactly two lower-case hex digits denoting it |
| JsText.TrimStart | content.js:263 | the result is a suffix of the input that does not start with white space |
| JsText.TrimStartRemovesSpace | content.js:263 | every character that `trim` drops in front is white space |
| JsText.TrimEnd | content.js:263 | the result is a prefix of the input that does not end with white space |
| JsText.TrimEndRemovesSpace | content.js:263 | every character that `trim` drops at the back is white space |
| JsText.Trim | content.js:263 | the result has no white space at either end |
| JsText.TrimNoop | content.js:302 | trimming a string that has no white space at either end gives the same string |
| JsText.Utf16Length | content.js:335 | JavaScript `length` counts UTF-16 units: between `\|s\|` and `2\|s\|`, and exactly `\|s\|` for text within the 16-bit plane |
| ColorValue.FirstMatch | utils/color.js:17-19 | `match` finds the leftmost position where the pattern matches, with its groups; no match starts before it; `None` when no position matches |
| ColorValue.ParseColor | utils/color.js:17-29 | no match gives opaque black `{0,0,0,1}`; a match gives the three captured integers as r, g, b, and alpha 1 when the fourth group is absent |
| ColorValue.FromCss | utils/color.js:3-15 | the colour is read from the browser's computed colour of the text; an unmatched computed string gives opaque black |
| ColorValue.ParseFloatDigits | utils/color.js:25 | `parseFloat` of a digit run agrees with `parseInt` |
| ColorValue.ParseFloatHalf | utils/color.js:25 | `parseFloat("0.5")` is one half |
| ColorValue.ParseFloatDots | utils/color.js:25 | a `[\d\.]+` capture made only of dots is `NaN` |
| ColorValue.MatchRgbLayout | utils/color.js:17-26 | the pattern matches `rgb(d1, d2, d3)` at its start, capturing the three values and no alpha |
| ColorValue.MatchRgbaLayout | utils/color.js:17-26 | the pattern matches `rgba(d1, d2, d3, t)` at its start, capturing the three values and the alpha text |
| ColorValue.ToRgbForm | utils/color.js:32-37 | `toRgb` gives `rgb(` text exactly when alpha is 1, and `rgba(` text exactly when it is not |
| ColorValue.OpaqueRoundTrip | utils/color.js:17-35 | parsing the `toRgb` text of an opaque colour gives the colour back |
| ColorValue.TranslucentRoundTrip | utils/color.js:17-37 | parsing the `toRgb` text of a translucent colour gives it back, when its alpha text reads back as the same number |
| ColorValue.HexComponent | utils/color.js:40-43 | `toHexComponent` pads the hexadecimal text to at least two characters |
| ColorValue.ToHexBytes | utils/color.js:39-47 | for channels in 0..255, `toHex` is `#` followed by six lower-case hex digits, two per channel, each pair decoding to its channel; alpha plays no part |
| ColorValue.MatchCapture | utils/color.js:17-26 | when each step of the pattern succeeds, the three groups are non-empty digit texts and the capture holds their values and the optional alpha group |
| ColorValue.PatternSlice | utils/color.js:18 | the text from the start of a match to its `)` is `rgb`, an optional `a`, `(`, the three groups separated by `", "`, the optional `", "` and alpha group, and `)` |
| ColorValue.MatchShape | utils/color.js:17-26 | a match at `p` is a text of the pattern's shape, `rgba?(d1, d2, d3[, t])` with digit groups and a `[\d\.]+` alpha, whose capture is the values of the groups |
| ColorValue.MatchFound | utils/color.js:17-26 | every text of the pattern's shape starting at `p`, whatever surrounds it, is matched at `p` with its groups |
| ColorValue.MatchIffPatternText | utils/color.js:18 | the pattern matches at `p` exactly when a text of its shape starts there |
| ColorValue.FirstMatchIs | utils/color.js:17-19 | a match at `p` with none before it is the one `match` returns |
| ColorValue.NoPatternTextFallsBack | utils/color.js:17-29 | the unanchored `match` finds nothing exactly when no text of the pattern's shape appears anywhere in the string, and then the colour is opaque black |
| ColorValue.ParseColorReadsFirstPattern | utils/color.js:17-26 | the leftmost text of the pattern's shape, at any position, gives r, g and b, and alpha 1 when it has no alpha group |
| ColorValue.PaddedExample | utils/color.js:17-26 | `" rgb(1, 2, 3) x"` reads as `{1, 2, 3, 1}`: the pattern is found away from the start and before other text |
| ColorValue.CompactRgbFallsBack | utils/color.js:17-29 | `rgb(255,0,0)` without spaces does not match and reads as opaque black |
| RgbHex.RunsFrom | content.js:2 | every run that `/\d+/g` returns is a non-empty string of digits |
| RgbHex.RunsFromSpec | content.js:2 | the runs laid end to end are exactly the digits of the string, and there is one run per maximal digit block |
| RgbHex.RunsMaximal | content.js:2 | the k-th run is the text of the k-th maximal digit block: the blocks come left to right without overlap, and every maximal block is one of them |
| RgbHex.AlphaSuffix | content.js:7-11 | no suffix without a fourth run; with one, the suffix is empty exactly when that run reads as 1, and otherwise is hexadecimal of at least two digits denoting 255 times its value |
| RgbHex.HexPart | content.js:4-6 | a missing run prints `NaN`; a value prints as at least two hex digits denoting it, exactly two below 256 |
| RgbHex.RgbToHex | content.js:1-12 | `""` exactly when the string has no digit run; otherwise the result starts with `#` |
| RgbHex.EmptyIffNoDigit | content.js:2-3 | the result is `""` exactly when the string contains no decimal digit |
| RgbHex.RgbToHexChannels | content.js:4-11 | with three channel runs below 256: `#` and two hex digits per channel, followed by the alpha suffix; seven characters exactly when there is no fourth run or it reads as 1 |
| RgbHex.RgbRuns | content.js:2 | the digit runs of `rgb(d1, d2, d3)` are `d1, d2, d3` |
| RgbHex.HalfRuns | content.js:2 | the digit runs of `rgba(d1, d2, d3, 0.5)` are `d1, d2, d3, 0, 5`: the alpha splits in two |
| RgbHex.RgbToHexOfToRgb | content.js:1-12 | on the `rgb()` text of an opaque colour, `rgbToHex` agrees with `Color.toHex` |
| RgbHex.HalfAlphaDropped | content.js:2-11 | on `rgba(…, 0.5)` the alpha is read as the run `0`, so the result ends in `00` |
| RgbHex.HalfAlphaExample | content.js:1-12 | `rgbToHex("rgba(10, 20, 30, 0.5)")` is `#0a141e00` |
| VisibleBackground.BodyFallback | content.js:71 | the body's background, or white when it is empty; never empty |
| VisibleBackground.FirstVisibleWins | content.js:64-70 | the nearest element whose background is non-empty, not `rgba(0, 0, 0, 0)` and not `transparent` gives the result |
| VisibleBackground.NoneVisibleFallsBack | content.js:64-71 | with no such element on the way up, the result is the body fallback |
| VisibleBackground.NeverEmpty | content.js:64-72 | the result is never empty, and is a background of the chain or the body fallback |
| VisibleBackground.TransparentBodyKept | content.js:71 | only an empty body background is replaced by white; a transparent one is returned as is |
| VisibleBackground.GetVisibleBackground | content.js:64-72 | the loop returns the reference result: the first visible background, or the body fallback when there is none |
| ColorExtract.FunctionalAt | content.js:260 | a functional match at `p` ends at least six characters later, within the string |
| ColorExtract.HexAt | content.js:260 | a hex match at `p` is 4 to 9 characters long |
| ColorExtract.MatchAt | content.js:260 | a match at `p` is at least four characters long, within the string |
| ColorExtract.FunctionalSound | content.js:260 | a functional match is `rgb`/`rgba`/`hsl`/`hsla` in any case, optional white space, `(`, one or more non-`)` characters and `)` |
| ColorExtract.FunctionalComplete | content.js:260 | every text of that shape starting at `p` is matched there, with exactly that end |
| ColorExtract.HexSound | content.js:260 | a hex match is `#` and 3 to 8 hex digits |
| ColorExtract.HexComplete | content.js:260 | when `#` and 3 to 8 hex digits start at `p`, the match there is at least that long |
| ColorExtract.HexGreedy | content.js:260 | a hex match stops only after eight digits, at the end of the string, or before a non-hex character |
| ColorExtract.MatchSound | content.js:260 | every match is a colour token of the grammar |
| ColorExtract.MatchComplete | content.js:260 | wherever a colour token starts, the pattern matches |
| ColorExtract.MatchTrimmed | content.js:263 | a matched text has no white space at either end |
| ColorExtract.NextMatch | content.js:262 | `exec` from `lastIndex` finds the leftmost match at or after it, with no match before it; `None` when there is none |
| ColorExtract.NextMatchIs | content.js:262 | the first position from `lastIndex` where the pattern matches is the one `exec` returns |
| ColorExtract.SpansFrom | content.js:262-264 | every span found lies at or after the start and within the string, and is non-empty |
| ColorExtract.SpansScan | content.js:262-264 | the spans are exactly what the `exec` loop visits: each the next match after the previous one's end |
| ColorExtract.ScanUnique | content.js:262-264 | the `exec` loop has only one possible run |
| ColorExtract.ScanOrdered | content.js:262-264 | the matches do not overlap and are in left-to-right order |
| ColorExtract.ScanSkipsNothing | content.js:262-264 | no colour token starts before the first match, between two matches, or after the last |
| ColorExtract.ExtractColorsFromValue | content.js:257-266 | the loop returns the trimmed texts of the matches, in order |
| ColorExtract.TokensAreColors | content.js:257-266 | each returned token is the text of its match, non-empty, trimmed and a colour token |
| ColorExtract.TokensInOrder | content.js:262-264 | the matches of the returned tokens come one after the other, without overlap |
| ColorExtract.NoTokenWhereNoMatch | content.js:260-262 | where the pattern does not match, no colour token starts |
| ColorExtract.EmptyIffNoColor | content.js:257-266 | the result is empty exactly when no colour token starts anywhere in the value |
| ColorExtract.ShadowExample | content.js:260 | in `rgba(0, 0, 0, 0.2) 0px 1px` the match is the colour, up to and including its `)` |
| ColorExtract.HexCutExample | content.js:260 | `#abcdef012` is matched as `#` and its first eight digits only |
| ColorExtract.ShortHexExample | content.js:260 | `#ab`, with fewer than three digits, is not matched |
| ColorScan.AddAllDistinct | content.js:211 | the `Set` holds each candidate once, holds exactly the candidates added, in order of first insertion |
| ColorScan.FirstIndex | content.js:211 | the first position of a value in a sequence |
| ColorScan.PropertyCandidatesAre | content.js:289-321 | a skipped value adds nothing; a shadow adds its extracted tokens; another property adds its tokens, or its trimmed value when there are none |
| ColorScan.ShadowAddsTrimmed | content.js:300-305 | the shadow branch's `color && color.trim()` test and its `trim` change nothing on extracted tokens |
| ColorScan.TrimAllTrimmed | content.js:312-315 | trimming the extracted tokens again changes nothing |
| ColorScan.TokensTrimmed | content.js:263 | every extracted token is trimmed |
| ColorScan.ValidColorsAre | content.js:333-366 | the filter keeps exactly the valid candidates, without duplicates, in their original order |
| ColorScan.AddPropertyColors | content.js:282-321 | one property's pass adds that property's candidates to the set |
| ColorScan.AddElementColors | content.js:281-323 | the `forEach` over the properties adds each property's candidates in turn |
| ColorScan.CollectColors | content.js:271-328 | the element loop leaves the set holding all candidates of the page, in scan order |
| ColorScan.FindColors | content.js:211-366 | the result is the valid distinct candidates in first-insertion order: no duplicates, and a colour is in it exactly when the page produced it and it is valid |
| ColorScan.EmittedInScanOrder | content.js:333-380 | the emitted colours are not sorted; each stands before every colour first produced later |
| ColorScan.ElementCandidatesFrom | content.js:281-323 | a colour is a candidate of an element exactly when one of its properties produced it |
| ColorScan.PageCandidatesFrom | content.js:271-328 | a colour is a candidate of the page exactly when one of its elements produced it |
| Inspection.InitialInv | content.js:15-21 | the injected state satisfies the session invariant |
| Inspection.StartIdempotent | content.js:149-160 | starting while active changes nothing; starting twice is starting once; afterwards the session, tooltip and listeners are on and nothing was sent |
| Inspection.StopIdempotent | content.js:162-163 | stopping while inactive changes nothing, whatever the reason; a second stop changes nothing |
| Inspection.StopSendsOne | content.js:162-188 | an effective stop turns the session, tooltip and listeners off and stores `isDetecting: false`. It sends exactly one message: `inspect-freeze` with the last sample when the reason is `freeze` and a sample exists, `inspect-end` otherwise |
| Inspection.MoveEffect | content.js:80-117 | a move with no element or no tooltip is ignored. Any other move replaces the sample. An update is sent, carrying the sample, exactly when 100 ms have passed since the last send, and then `lastSent` is now |
| Inspection.SampleColours | content.js:84-108 | the sample's background is never empty and is a chain background or the body fallback; its text hex is empty exactly when the colour has no digits |
| Inspection.ClickEffect | content.js:127-146 | non-primary clicks and double clicks are ignored. A primary click leaves one timer, due 250 ms later, and changes nothing else. A primary double click leaves no timer, ends the session and sends `inspect-end` |
| Inspection.EscapeEnds | content.js:123-125 | Escape ends the session with `inspect-end`; other keys do nothing |
| Inspection.StaleTimerSilent | content.js:131-133 | a timer firing after the session stopped sends nothing and clears only itself; a timer not yet due does nothing |
| Inspection.InactiveIgnoresPage | content.js:166-171 | with the listeners removed, page events change nothing |
| Inspection.StartInv | content.js:149-160 | starting keeps the invariant |
| Inspection.StopInv | content.js:162-188 | stopping keeps the invariant |
| Inspection.SpacedSnoc | content.js:111-113 | recording a send at least 100 ms after the previous one keeps the sends spaced |
| Inspection.MoveInv | content.js:80-117 | a move keeps the invariant, in particular the 100 ms spacing of updates |
| Inspection.TimerInv | content.js:131-133 | the timer keeps the invariant |
| Inspection.ReceiveInv | content.js:191-198 | a runtime message keeps the invariant |
| Inspection.DeliverInv | content.js:80-198 | every handler keeps the invariant: tooltip and listeners exist exactly while active; every update is recorded, consecutive updates at least 100 ms apart |
| Inspection.RunInv | content.js:75-198 | after any history of events the invariant holds |
| Inspection.DoubleClickEndsOnce | content.js:127-146 | click, click, double click ends the session with one `inspect-end`, no freeze, and no timer left |
| Inspection.ClickFreezes | content.js:80-135 | a click after a move freezes the session on that move's sample 250 ms later. The move sends an update first exactly when 100 ms have passed since the last send |
| Inspection.StaleTimerFreezesNextSession | content.js:127-188 | a timer armed before Escape freezes the next session when it starts within 250 ms |
| Inspection.ContentScript.constructor | content.js:75-78 | the fields start as the script's initial state |
| Inspection.ContentScript.StartInspection | content.js:149-160 | performs `Start` on the fields and keeps the invariant |
| Inspection.ContentScript.StopInspection | content.js:162-188 | performs `Stop` on the fields and keeps the invariant |
| Inspection.ContentScript.OnMouseMove | content.js:80-121 | computes the sample with the background loop and `rgbToHex`, performs `Move` and keeps the invariant |
| Inspection.ContentScript.OnKeyDown | content.js:123-125 | performs `KeyDown` and keeps the invariant |
| Inspection.ContentScript.OnClick | content.js:127-135 | performs `Click` and keeps the invariant |
| Inspection.ContentScript.OnDblClick | content.js:137-146 | performs `DblClick` and keeps the invariant |
| Inspection.ContentScript.OnTimer | content.js:131-133 | performs `TimerDue` and keeps the invariant |
| Inspection.ContentScript.OnMessage | content.js:191-381 | toggles the session or runs the colour scan, appending `color-results`; performs `Receive` and keeps the invariant |
| Translator.Lookup | utils/translator.js:29-40 | the message of the language in use when its file has the key; else the English message when English has it; else the key |
| Translator.LookupIsFirstHit | utils/translator.js:29-40 | the lookup is the first hit among the language in use and English, or the key when neither has it |
| Translator.EnglishFallback | utils/translator.js:34-38 | a key missing from the language in use is answered from English |
| Translator.LoadCached | utils/translator.js:8-11 | a cached language becomes the language in use, with no fetch |
| Translator.LoadFetched | utils/translator.js:12-19 | an uncached language is fetched once; on success its file is stored and it becomes the language in use |
| Translator.LoadFallsBack | utils/translator.js:20-26 | a failed non-English fetch is followed by exactly one `load('en')`, whose outcome is the outcome of the whole load |
| Translator.EnglishFailureKeeps | utils/translator.js:20-26 | a failed English load leaves the cache and the language in use unchanged |
| Translator.LoadOnlyAdds | utils/translator.js:7-27 | no cached file is removed or replaced; only the requested language or English is added; at most two fetches |
| Translator.LoadKeepsResolvable | utils/translator.js:7-27 | the language in use stays English or a cached one; after a load it is the requested language, English, or the state is unchanged |
| Translator.LoadTwice | utils/translator.js:7-27 | with the network answering the same, loading a language twice ends as loading it once |
| Translator.LoadedMessageWins | utils/translator.js:17-33 | after a successful load, the loaded language's message answers the lookup |
| Translator.Translator.constructor | utils/translator.js:2-5 | nothing is cached and English is in use |
| Translator.Translator.GetMessage | utils/translator.js:29-40 | the message of the first of the language in use and English whose loaded file has the key; the key itself when neither has it |
| Translator.Translator.Load | utils/translator.js:7-27 | the method's new state and its requests are those of the load function, including its one recursive English load |

## Behaviour as written

The model follows the code in these places, where a reader might expect
otherwise:
- The scan does not sort its result. Colours come out in the order of
  their first insertion into the `Set` (`ColorScan.EmittedInScanOrder`).
- `rgbToHex` reads the alpha as a run of decimal digits. So
  `rgba(10, 20, 30, 0.5)` gets the alpha run `0` and the suffix `00`, not `80`
  (`RgbHex.HalfAlphaExample`).
- `getVisibleBackground` replaces the body's background with white only when
  it is empty. A transparent body background is returned as it is
  (`VisibleBackground.TransparentBodyKept`).
- Escape, a toggle or any other stop does not clear the freeze timer. A
  session started again within 250 ms of a click is frozen by the old timer
  (`Inspection.StaleTimerFreezesNextSession`).
- `lastSample` survives a stop. A freeze in a new session, before any move
  there, carries the previous session's sample.

## Left out

- Overlay construction and styling, cursor changes, the tooltip's text and
  its pixel position (content.js:23-62, 93-98, 119-120, 153, 166). These are
  presentation; the model keeps only whether the tooltip exists.
- The rem size (content.js:87-91) is floating point. It is an opaque string
  in `Hover` and `Sample`.
- `chrome.runtime.sendMessage`, `chrome.storage.local.set` and the
  swallowing `try`/`catch` are extension APIs. Sending always succeeds, so
  no error path is modelled.
- `getComputedStyle`, `elementFromPoint`, `parentElement`, the
  temporary-element round trips and `getElementsByTagName` are the browser.
  They are parameters: the backgrounds the walk visits, the element styles,
  and the round-trip functions.
- Timers: which events arrive, and when `OnTimer` runs, is up to the
  caller. Concurrency between the page and the runtime is not modelled.
- All `console.log` output, the test-class probes (content.js:201-254,
  277-292) and the counters `elementCount`/`colorCount`, which only feed
  logs.
- The `try`/`catch` around a colour's validity test (content.js:362-365)
  is not modelled; the round-trip oracle is total.
- ColorValue.ParseColor: alpha is an exact decimal, not an IEEE double.
  The text `${a}` prints is supplied by the caller (`showNumber`). So its
  contract states r, g, b and the absent-alpha case, and the alpha only
  through the round-trip lemmas. The r, g and b runs are exact integers,
  with no double rounding above 2^53.
- JsText.DecimalValue: a digit run is read as an exact unbounded integer.
  JavaScript's `parseInt` returns a double. It rounds runs above 2^53, and
  it gives `Infinity` for runs of about 309 digits or more. The browser's
  computed colours keep their channels in 0..255, so such runs do not come
  from it, but `rgbToHex` and `parseColor` accept any string.
- RgbHex.HexPart: the hex text denotes the exact value of the run. For a
  run above 2^53 the program prints the rounded double instead, and
  `Infinity` for a very long run.
- RgbHex.AlphaSuffix: `Math.round(a * 255)` is applied only to integer
  runs, where rounding does nothing. A fractional alpha cannot reach it.
  Like the channels, the run is read exactly, with no double rounding.
- Strings are sequences of Unicode scalar values. Only `length` is counted
  in UTF-16 units (`JsText.Utf16Length`); a lone surrogate cannot occur.
- ColorScan.PageCandidatesFrom: membership is stated per element, and
  per property in `ColorScan.ElementCandidatesFrom`, as two lemmas rather
  than one combined statement.
- Translator: a locale file is a map from key to an entry with a `message`.
  Non-object entries, entries without `message`, and JavaScript's inherited
  object keys (such as `constructor`) are not modelled. `Translator.apply`
  is a DOM walk and is not modelled. Interleaved asynchronous loads are not
  modelled.
- panel/panel.js, popup/popup.js, background.js and utils/theme.js are UI
  wiring and browser-API glue; they are not part of this model.
