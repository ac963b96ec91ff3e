# Caption layout and video naming of the meme generator, in Dafny

The meme generator asks a language model for a one-line joke, asks an image
model for a picture, writes the joke across the top of the picture and can
turn the picture into a short video. The logic of its own in that chain is
small, and it is what this project models and proves:

- **Cleaning the generated text** (`cleanText`): one surrounding double quote
  removed at each end, then whitespace trimmed.
- **Choosing the font size** (`adjustFontSize`): a do-while loop that sets the
  canvas font to `maxFontSize`, `maxFontSize - 2`, ... and stops at the first
  size at which the whole caption, as one line, measures within `maxWidth`, or
  once the size is no longer above 30.
- **Wrapping the caption** (`wrapText`): `split(" ")` into words, then a greedy
  loop that appends `word + " "` to the current line unless the line is
  non-empty and would then measure more than `maxWidth`; the last line is
  trimmed.
- **Placing the lines**: line `i` is stroked and then filled at
  `(512, 80 + i * (fontSize + 10))`.
- **The route's use of these** (lines 147-159 of `src/server.ts`): the size is
  chosen by measuring the caption as it is, the font is set to that size
  again, and the UPPER-CASED caption is wrapped under it.
- **The language table**: a code names its language, anything else English.
- **The video's file name**: `imagePath.replace(".png", ".mp4")`, which
  replaces the leftmost ".png" anywhere in the path, not the extension.

The canvas context is a class, `Canvas.Context`, with a mutable `font` field
(the pixel size) and a measuring function `measure(size, s)` standing for
`measureText(s).width`: the font engine is not modelled, so every result
holds for any measurement whatsoever. `adjustFontSize` changes the font and is
a method with the source's loop; `wrapText` only reads it and is a method with
the source's `for` loop. Both are proved against functions (`FontSize.Search`,
`Wrap.Groups`) whose properties are the lemmas below. A wrapping is described
by its token groups, one group per line; the lemmas show that the loop's
grouping is a greedy wrapping (the groups partition the tokens in order, every
longer prefix of a line fits, every break is forced) and that it is the only
one.

The code has no length-based font-size hint, no minimum font size fallback,
no vertical centering around top/center/bottom anchors, no fading
multi-frame animation, no 24-hour used-topic ledger and no topic denylist,
and the model has none of them either: the first line always goes at y = 80,
and for a start above 30, such as the route's 80, when nothing fits the size
returned is 30 (or 29 for an odd start), a size that was never measured. For
a start at or below 30 the loop body runs once and the result is the start
or the start minus 2.

Modules: `JsString` (text.dfy) holds the JavaScript string built-ins,
`Canvas` (canvas.dfy) the context and draw calls, `FontSize` (font_size.dfy),
`Wrap` (wrap.dfy), `Server` (server.dfy) and `VideoPath` (video_path.dfy).

## Model

| member | source | states |
|---|---|---|
| `JsString.SkipLeading` | src/server.ts:34 | the index where `trim()` stops skipping forwards: every character skipped is whitespace and the one it stops at is not, or it is the end |
| `JsString.SkipTrailing` | src/server.ts:34 | the index where `trim()` stops skipping backwards, never below the start found: every character skipped is whitespace and the one before it is not, or it is the start |
| `JsString.Trim` | src/server.ts:63 | `trim()` returns a contiguous piece of its input surrounded only by whitespace, and its own first and last characters are not whitespace |
| `JsString.TrimUnique` | src/server.ts:34 | any piece of a string with only whitespace around it and none at its own ends is that string's `trim()` |
| `JsString.TrimIdempotent` | src/server.ts:34 | trimming twice is trimming once |
| `JsString.TrimTrailingSpace` | src/server.ts:63 | a space the wrap loop appends at the end disappears under `trim()` |
| `JsString.Split` | src/server.ts:49 | `split(" ")` yields at least one word and no word contains the separator |
| `JsString.JoinSplit` | src/server.ts:49 | joining the words of a split with the separator gives back the text |
| `JsString.SplitJoin` | src/server.ts:49 | splitting a join of separator-free words gives back the words |
| `JsString.IndexFrom` | src/convertImageToVideo.ts:5 | `indexOf` returns -1 exactly when the pattern occurs nowhere, otherwise an occurrence with none before it |
| `JsString.ReplaceFirst` | src/convertImageToVideo.ts:5 | a string-pattern `replace` leaves a string without the pattern unchanged and otherwise replaces exactly the leftmost occurrence, keeping everything before and after it |
| `Canvas.Context.constructor` | src/server.ts:137 | a context starts with the given font and measuring function |
| `FontSize.SearchFirstFit` | src/server.ts:38-43 | when the loop breaks, it is at the first size of `maxFontSize`, `maxFontSize - 2`, ... that fits, and every larger size it tried did not; a caption that fits at `maxFontSize` keeps it |
| `FontSize.SearchExhausted` | src/server.ts:39-44 | the loop runs out of sizes exactly when no size it tries fits; the size it then returns was never measured, and the font is left at that size + 2, the last one measured |
| `FontSize.SearchBounds` | src/server.ts:38-44 | the result is `maxFontSize - 2k` with k >= 0; above 30 it is at least 29, and 29 or 30 when nothing fits; at or below 30 the body runs once and the result is `maxFontSize` or `maxFontSize - 2` |
| `FontSize.AdjustFontSize` | src/server.ts:37-45 | the do-while loop returns the size the search chooses and leaves the context's font where the search last set it; it returns `maxFontSize` when the caption fits there |
| `Wrap.CaptionTokensSpell` | src/server.ts:49-54 | a caption has at least one token `word + " "`, none empty, and the tokens spell the caption followed by one space |
| `Wrap.GroupsWellGrouped` | src/server.ts:53-63 | the lines partition the tokens in order, none is empty, every prefix of two or more tokens of a line measures within `maxWidth`, and each break happened because the next token would not fit on the line |
| `Wrap.GroupsUnique` | src/server.ts:53-63 | any grouping of the tokens with those properties is exactly the one the loop makes |
| `Wrap.GroupsFit` | src/server.ts:54-61 | every line, and the last one before trimming, is a single token or measures within `maxWidth` under the current font, trailing space included |
| `Wrap.LinesShape` | src/server.ts:53-64 | there is at least one line; every line but the last is its tokens concatenated, non-empty and ending in its space; only the last is trimmed; the lines spell the caption and one space |
| `Wrap.WrapSingleLine` | src/server.ts:53-64 | a caption whose every run of leading tokens fits stays on one line, equal to the caption trimmed |
| `Wrap.WrapText` | src/server.ts:48-65 | the `for` loop returns the lines of the greedy grouping measured under `ctx.font`, at least one line, and `[""]` for the empty caption |
| `Server.CleanText` | src/server.ts:34 | the cleaned text occurs as a contiguous piece of the input and has no whitespace at either end |
| `Server.CleanTextCases` | src/server.ts:34 | by the quotes at the ends: none gives the input trimmed; one at the start only (a lone `"` included) gives the rest trimmed; one at the end only gives the rest trimmed; one at each end of a string of two or more gives the middle trimmed |
| `Server.CleanTextUnquotes` | src/server.ts:34 | for any content, a quoted string loses exactly one quote at each end, then is trimmed |
| `Server.CleanTextKeepsInnerQuotes` | src/server.ts:34 | quotes are removed before trimming, so quotes inside surrounding spaces remain |
| `Server.CleanTextOfCleanText` | src/server.ts:34 | text with no quote and no whitespace at either end is unchanged |
| `Server.MemeText` | src/server.ts:115 | non-empty model output gives that output cleaned; missing or empty output gives the default caption unchanged; the caption never has outer whitespace |
| `Server.LanguageName` | src/server.ts:78-103 | a known code gives its language from the table, any other gives English, and the result is always one of the table's languages |
| `Server.PlacementOrder` | src/server.ts:154-159 | two draw calls per line in line order: line `i` stroked and then immediately filled, both at (512, 80 + i * (fontSize + 10)) |
| `Server.PlacementSpacing` | src/server.ts:154-159 | the first line is at y = 80 and lines `i < j` are `(j - i) * (fontSize + 10)` apart, so for sizes above -10 they go strictly down |
| `Server.CaptionFontSize` | src/server.ts:148-149 | with width 900 and start 80 the size is even and between 30 and 80; when nothing up to 32 fits it is 30, a size never measured |
| `Server.DrawCaption` | src/server.ts:147-159 | the size comes from measuring the caption as it is, the font is reset to it, the upper-cased caption is wrapped under it and its lines placed; the first call is a stroke at y = 80 |
| `VideoPath.VideoPath` | src/convertImageToVideo.ts:5 | the video path has the image path's length, and equals it when the image path contains no ".png" |
| `VideoPath.VideoPathLeftmost` | src/convertImageToVideo.ts:5 | only the leftmost ".png" becomes ".mp4"; text before it is unchanged, and after it every later ".png" is kept |
| `VideoPath.VideoPathOfPngFile` | src/convertImageToVideo.ts:5 | a path whose only ".png" is its suffix gets ".mp4" in its place |
| `VideoPath.VideoPathOfPngDirectory` | src/convertImageToVideo.ts:5 | "a.png/b.png" becomes "a.mp4/b.png", which still ends in ".png" |

## Left out

- The Express routes, environment loading, the calls to the text and image models, the image download, file writes, canvas creation, image loading and drawing, PNG encoding and `app.listen` (src/server.ts:10-31, 69-173, 192-196): input/output and calls into other services.
- The other canvas settings (fill and stroke colour, line width 8, centred alignment, src/server.ts:142-145): constant state the draw calls use, not modelled.
- The `/download-meme` route (src/server.ts:176-190): it checks for one timestamped file and downloads another; only file-system behaviour.
- The ffmpeg pipeline and its promise wiring (src/convertImageToVideo.ts:7-23): an external process.
- The upload modules (src/uploadToYoutube.ts, src/uploadToInstagram.ts, src/uploadToTikTok.ts, src/uploadToSocialMedia.ts): network clients.
- dist/server.js and dist/memeGenerator.js: compiled output of an older version.
- Real text metrics: `measureText().width` is a floating-point width from the font engine; the model takes any natural-number function of font size and string.
- Canvas.Context: the font is recorded by its pixel size only; canvas ignores a font string with a size it cannot parse (such as a negative one), which the model does not reproduce.
- DrawCaption: `toUpperCase` is a parameter of the method, not modelled character by character.
- LanguageName: the lowercasing of the query parameter and its default "en" (src/server.ts:74) belong to the request handling and are not modelled; names inherited by every JavaScript object (such as "constructor") would also be found in the table and are not modelled.
- JsString.Split: only a one-character separator is modelled, the only kind the code uses.
- JsString.ReplaceFirst: `$` patterns in the replacement string are not modelled; ".mp4" has none.
- Strings are sequences of Unicode scalar values; JavaScript's UTF-16 code units are not modelled, which makes no difference to `split(" ")`, `trim()`, the quote removal or the ".png" search.
