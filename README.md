# BBYO rich-text editor: a verified model

This project models the core of the BBYO direct-mail email editor, which has three parts:

- **The hosted editor page** (`hosted_editor/editor.js`). It is a TinyMCE page. It receives the email's HTML from Salesforce Flow, cleans it, and sends it back.
- **The Lightning web component** (`lwc/bbyoRichTextEditor/bbyoRichTextEditor.js`). It embeds that page in a Flow screen.
- **The PHP endpoint** (`hosted_editor/img_upload/upload.php`). It stores uploaded images.

The model is in Dafny, one module per concern:

| module | file | what it holds |
|---|---|---|
| `JsText` | `js_text.dfy` | JavaScript's `\s`, `trim`, the case folding of the `i` flag, decimal digits |
| `Patterns` | `patterns.dfy` | the regular expressions of the cleaning passes (`removeLeadingEmptyParagraph`, `normalizeWidths` and the paste chain), each as a deterministic anchored matcher, and `ReplaceAll`, the left-to-right scan of a global `String.prototype.replace`. The link tests of `rewriteLinksOnSave` are in `Links`. |
| `Sanitizers` | `sanitizers.dfy` | `removeLeadingEmptyParagraph`, `normalizeWidths`, `sanitizeUrl` |
| `PasteCleaner` | `paste_cleaner.dfy` | the `paste_preprocess` replace chain |
| `RuleEffects` | `rule_effects.dfy` | what each replace of the paste chain does to a piece of the shape its pattern describes |
| `Links` | `links.dfy` | `rewriteLinksOnSave` (the per-link rule and the in-place pass over the anchors) and the CTA marker strip |
| `ImageFormat` | `images.dfy` | `isAnimatedGif`, `pngHasTransparency` and the output decision of `optimizeImage` |
| `EditorSession` | `editor_session.dfy` | the page's module-level flags as a class, one method per event handler |
| `HostComponent` | `host_component.dfy` | the Lightning component as a class |
| `ImageUpload` | `image_upload.dfy` | the upload endpoint as a pure function of the request and the host's answers |

Central results:

- **`normalizeWidths` is idempotent.** Its output is *normalized*: every width attribute in it is written `width=` + quote + canonical digits ≤ 600 + quote. Such text is a fixpoint of the replace, because a width match never reads past the next `w`/`W`.
- **The paste chain always ends normalized.** Pasted text with no `<`, no white space and no `w`/`W` comes out unchanged. Each replace of the chain removes or rewrites a piece of the shape its pattern names, and the scan goes on after it.
- **The length guard never truncates while a paste or an upload is running.** Otherwise it keeps exactly the first 125000 characters.
- **The component posts `requestContent` at most once** in its life.
- **The upload endpoint's first failing check decides its single error.** A successful upload is stored under `{timestamp}-{10 hex digits}.{png|jpeg|gif}` in the month's folder.

Two properties one might expect of the code do not hold:

- **Two `init` messages before the editor is ready.** The second overwrites the first in the queue, so the last one is applied, not the first (`EditorSession.TwoInitsBeforeReady`).
- **`removeLeadingEmptyParagraph` is not idempotent.** A single pass over `<p><p></p></p>` leaves `<p></p>` (`Sanitizers.RemoveEmptyParagraphNotIdempotent`).

## Model

| member | source | states |
|---|---|---|
| `JsText.TrimIdempotent` | hosted_editor/editor.js:366 | trimming twice gives the same text as trimming once |
| `JsText.TrimShape` | hosted_editor/editor.js:366 | the trimmed text neither begins nor ends with white space and occurs inside the original |
| `JsText.TrimKeepsPrefix` | hosted_editor/editor.js:488-492 | trimming a text that starts with a non-space prefix ending in a non-space keeps that prefix (so a marked href stays marked) |
| `JsText.NatToStringRoundTrip` | hosted_editor/editor.js:81-86 | the decimal notation `${value}` writes reads back as the value and has no leading zero unless the value is 0 |
| `JsText.PadLeft` | hosted_editor/img_upload/upload.php:61-62 | the padded text has the requested length, ends with the original, and is filled with the pad character |
| `Patterns.ParseWidth` | hosted_editor/editor.js:80 | a match of `width\s*=\s*(['"]?)(\d+)\1` starts with `width`, has at most one quote character, a non-empty digit run, closes with its own quote when it opened with one, and when unquoted is not followed by a digit (the greedy `\d+`) |
| `Patterns.ClampedWidth` | hosted_editor/editor.js:81-90 | the written width is at most 600; it equals the parsed value when that is ≤ 600 and is exactly 600 when the value is larger |
| `Patterns.WidthMatch` | hosted_editor/editor.js:80-91 | the width pattern matches exactly where the attribute parses |
| `Patterns.MatchAt` | hosted_editor/editor.js:556-570 | every match consumes at least one character and a deleting pattern's replacement is empty |
| `Patterns.MatchStart` | hosted_editor/editor.js:556-570 | every pattern starts at a `<`, at white space or at a `w`/`W` |
| `Patterns.NoOccurrenceInPlainText` | hosted_editor/editor.js:556-570 | text without `<`, white space or `w`/`W` contains no match of any pattern |
| `Patterns.ReplaceAllWithoutOccurrence` | hosted_editor/editor.js:73 | a global replace with no match returns its input |
| `Patterns.ReplaceAllShortens` | hosted_editor/editor.js:73 | a deleting global replace never lengthens its input and shortens it when it matches |
| `Patterns.ReplaceAllFixedIff` | hosted_editor/editor.js:73 | a deleting global replace leaves its input unchanged if and only if the pattern does not occur |
| `Patterns.ReplaceAllKeepsOrder` | hosted_editor/editor.js:73 | a deleting global replace keeps the rest of the text in order (its output is a subsequence of the input) |
| `Patterns.ParseWidthSame` | hosted_editor/editor.js:80 | the width pattern reads nothing past the next `w`/`W`: texts that agree up to it parse alike |
| `Patterns.ReplaceAllReplacesFirst` | hosted_editor/editor.js:73 | a match at the start of the text is replaced and the scan resumes right after it |
| `Patterns.ReplaceAllCopiesUnmatched` | hosted_editor/editor.js:73 | text at whose positions the pattern does not match is copied to the output unchanged, and the scan goes on after it |
| `Patterns.ReplaceAllAfterUnmatched` | hosted_editor/editor.js:73 | an unmatched stretch is copied, then the first match is replaced, then the scan resumes after the match |
| `Patterns.ReplaceAllDeletesAfterUnmatched` | hosted_editor/editor.js:73 | an unmatched stretch is copied, the deleted match after it vanishes, and the scan continues with the rest |
| `Patterns.QuotedValueRejected` | hosted_editor/editor.js:80-83 | a quoted value that is not digits closed by the same quote does not match: a quoted percentage (`width="50%"`), a mismatched closing quote (`width="600'`), a quoted word |
| `Patterns.NonNumericRejected` | hosted_editor/editor.js:80 | an unquoted value that does not start with a digit (`width=auto`) does not match |
| `Patterns.UnquotedPercentMatched` | hosted_editor/editor.js:80-83 | an unquoted percentage does match: `width=700%` is read as the pixel width 700 with the `%` left after it, although the comment at line 83 says percentages are not matched |
| `Patterns.ParseWidthRematch` | hosted_editor/editor.js:80-91 | a width attribute as `normalizeWidths` writes it is matched again as exactly itself |
| `Patterns.ParseWidthCaptures` | hosted_editor/editor.js:80 | the captured quote, digits and quote are the characters that end the match, so the value written back comes from the attribute's own text |
| `Patterns.ParseWidthSpelled` | hosted_editor/editor.js:80 | every spelling the `gi` pattern accepts (`width` in any letter case, white space on either side of `=`) is matched in full with its own quote and digits |
| `Sanitizers.RemoveLeadingEmptyParagraphDeletes` | hosted_editor/editor.js:72-74 | the strip only deletes: the output is no longer than the input, is the input with characters left out in their order, and equals the input exactly when no empty paragraph occurs |
| `Patterns.EmptyParagraphSpelled` | hosted_editor/editor.js:73 | every spelling the `gi` pattern accepts (`<p>` and `</p>` in any letter case, white space around at most one `&nbsp;` of any case) is matched in full and replaced by nothing, whatever follows it |
| `Sanitizers.RemoveEmptyParagraphContinues` | hosted_editor/editor.js:72-74 | every empty paragraph is deleted, not only the first: a stretch with no `<`, an empty paragraph in any accepted spelling (`<p></p>`, `<P> &nbsp; </P>`, …) and a rest become the stretch followed by the cleaned rest |
| `Sanitizers.RemoveEmptyParagraphNotIdempotent` | hosted_editor/editor.js:72-74 | one pass over `<p><p></p></p>` leaves `<p></p>`, which a second pass deletes |
| `Sanitizers.NormalizeWidths` | hosted_editor/editor.js:78-92 | the output is normalized (every width match reads `width=` + same quote + canonical digits ≤ 600 + quote); a text with no match is returned unchanged |
| `Sanitizers.NormalizeWidthsIdempotent` | hosted_editor/editor.js:78-92 | normalizing twice gives the same text as normalizing once |
| `Sanitizers.NormalizeWidthsRewrites` | hosted_editor/editor.js:78-92 | after a stretch with no `w`/`W`, a width attribute is rewritten with its own quote and its value capped at 600, and the rest is normalized in turn |
| `Sanitizers.NormalizeWidthsSpelled` | hosted_editor/editor.js:78-92 | any spelling (`WIDTH = "700"`, `Width='300'`) is written back as lower-case `width=`, its own quote, min(v, 600) and the quote, and normalising goes on after it |
| `Sanitizers.NormalizeWidthsKeepsUnclosedQuote` | hosted_editor/editor.js:78-92 | a quoted percentage, a mismatched quote or a quoted word is left as written, and normalizing goes on after its digits |
| `Sanitizers.NormalizeWidthsKeepsNonNumeric` | hosted_editor/editor.js:78-92 | an unquoted value that does not start with a digit is left as written |
| `Sanitizers.NormalizeWidthsSkips` | hosted_editor/editor.js:78-92 | text at whose start the width pattern does not match, with no `w`/`W` after its first character, is copied and normalizing goes on after it |
| `Sanitizers.NormalizedIsFixed` | hosted_editor/editor.js:78-92 | a normalized text is a fixpoint of the width replace |
| `Sanitizers.ReplaceAllWidthNormalizes` | hosted_editor/editor.js:80-91 | the replace's output is normalized and agrees with its input up to the first `w`/`W` |
| `Sanitizers.SanitizeUrl` | hosted_editor/editor.js:364-369 | the result is empty exactly for blank input or a trimmed input starting `javascript:` in any case; otherwise it is the trimmed input |
| `Sanitizers.SanitizeUrlIdempotent` | hosted_editor/editor.js:364-369 | the result is trimmed, and sanitizing it again changes nothing |
| `PasteCleaner.PasteClean` | hosted_editor/editor.js:540-581 | the cleaned paste is normalized and a fixpoint of `normalizeWidths` |
| `PasteCleaner.ApplyRulesAppend` | hosted_editor/editor.js:556-570 | a chain of replaces split in two is the second part applied to the first part's output |
| `PasteCleaner.ApplyRulesWithoutOccurrence` | hosted_editor/editor.js:556-570 | a chain finds no match in text none of its patterns match, and returns the text |
| `PasteCleaner.ApplyDeletingRulesKeepsOrder` | hosted_editor/editor.js:556-565 | a chain of deleting replaces keeps the remaining text in order and never lengthens it |
| `PasteCleaner.StripStageKeepsOrder` | hosted_editor/editor.js:556-565 | the removal stage (Office tags, comments, style blocks, class/style/alt/v:/height attributes) only deletes |
| `PasteCleaner.PasteCleanKeepsPlainText` | hosted_editor/editor.js:556-577 | pasted text with no `<`, white space or `w`/`W` comes out unchanged |
| `PasteCleaner.BoldOpenSkipsBreak` | hosted_editor/editor.js:567 | `<b(\s*>)` does not match the start of `<br>` or `<BR>` |
| `PasteCleaner.LegacyWidthKeepsTrailingDigits` | hosted_editor/editor.js:566 | on `width="468` followed by more digits the legacy rewrite matches only `width="468`, so the extra digits survive after `width="600"` |
| `RuleEffects.ReplaceAllAtStart` | hosted_editor/editor.js:556-570 | a match spanning a given prefix turns it into the replacement and the scan continues after it |
| `RuleEffects.OfficeTagRemoved` | hosted_editor/editor.js:556 | an `o:p` tag, opening or closing, its name in any letter case and with anything but `>` after it, is removed |
| `RuleEffects.CommentRemoved` | hosted_editor/editor.js:557-558 | a comment is removed up to the first `-->` after its `<!--` |
| `RuleEffects.MsoFragmentRemoved` | hosted_editor/editor.js:559 | an Office conditional fragment is removed up to the first `]>` after its `<![` |
| `RuleEffects.StyleBlockRemoved` | hosted_editor/editor.js:560 | a style block is removed up to the first `</style>` in any case |
| `RuleEffects.AttributeRemoved` | hosted_editor/editor.js:561-565 | a `class`, `style`, `alt` or `height` attribute is removed with the white-space character before it, white space allowed around `=`, whatever form its value takes: double-quoted, single-quoted (`style='…'`) or unquoted up to white space or `>` (`class=MsoNormal`) |
| `RuleEffects.VmlAttributeRemoved` | hosted_editor/editor.js:564 | a `v:` attribute (any run of letters after `v:`) is removed with the white-space character before it, with a double-quoted, single-quoted or unquoted value |
| `RuleEffects.ValueRead` | hosted_editor/editor.js:561-565 | the value pattern `("[^"]*"|'[^']*'|[^\s>]+)` reads each of the three value forms whole |
| `RuleEffects.LegacyWidthRewritten` | hosted_editor/editor.js:566 | `width=468`, `width="468"`, `width='468'` (and mismatched quotes) become `width="600"`; a closing quote is taken with the number |
| `RuleEffects.BoldOpenRewritten` | hosted_editor/editor.js:567 | `<b>` or `<B>`, with any white space before `>`, becomes `<strong>` |
| `RuleEffects.BoldCloseRewritten` | hosted_editor/editor.js:568 | `</b>` or `</B>` becomes `</strong>` |
| `RuleEffects.SpanTagRemoved` | hosted_editor/editor.js:569 | a `span` tag, opening or closing, its name in any letter case and with any attributes, is removed |
| `RuleEffects.EmptyParagraphRemoved` | hosted_editor/editor.js:570 | an empty paragraph in any spelling the pattern accepts is removed and the global replace goes on after it |
| `Links.WithScheme` | hosted_editor/editor.js:496-500 | an href with `http://` or `https://` in any case is kept; any other gets `https://` in front (both source branches agree) |
| `Links.RewriteHrefKeepsSkipped` | hosted_editor/editor.js:486-493 | blank hrefs, hrefs already carrying the `HTTPGetWrap` marker and hrefs starting `about:`, `blob:`, `mailto:`, `tel:`, `javascript:` or `#` in any case are left exactly as they were |
| `Links.RewriteHrefWraps` | hosted_editor/editor.js:489-514 | any other href is trimmed and given `https://` if needed; when the parser accepts it the href becomes the marker `HTTPGetWrap` and a bar followed by the parsed href, otherwise it is left unchanged |
| `Links.RewriteHrefIdempotent` | hosted_editor/editor.js:481-516 | a second rewrite pass changes nothing |
| `Links.StripMarker` | hosted_editor/editor.js:821 | the stripped text with the marker in front gives back the original when it carried the marker; otherwise the text is unchanged |
| `Links.StripMarkerRecoversUrl` | hosted_editor/editor.js:821 | stripping the marker from a rewritten href gives back the parser's href |
| `Links.RewriteEachAt` | hosted_editor/editor.js:485-515 | each anchor is rewritten on its own: place `i` of the rewritten list holds the rewrite of anchor `i` |
| `Links.RewriteEachIdempotent` | hosted_editor/editor.js:481-516 | a second save over the whole list of anchors changes nothing |
| `Links.RewriteAnchor` | hosted_editor/editor.js:514 | one anchor's href is replaced by its rewrite in place; every other anchor is untouched |
| `Links.RewriteLinksOnSave` | hosted_editor/editor.js:481-516 | after the save the array holds, in document order, the rewrite of each anchor's original href |
| `ImageFormat.IsAnimatedGif` | hosted_editor/editor.js:391-403 | true exactly when at least two offsets i with i+9 < length have bytes 0x21, 0xF9 at i, i+1 and 0x2C at i+8 |
| `ImageFormat.ShortDataIsStatic` | hosted_editor/editor.js:395 | data shorter than 10 bytes is never animated |
| `ImageFormat.TwoControlledFramesAreAnimated` | hosted_editor/editor.js:391-403 | two GIF89a graphic-control blocks each followed by an image separator make the data animated |
| `ImageFormat.PngHasTransparency` | hosted_editor/editor.js:374-386 | true when the pixels cannot be read, otherwise exactly when some byte at index 3 + 80k is below 255 |
| `ImageFormat.OpaqueDataHasNoTranslucentSample` | hosted_editor/editor.js:378-380 | fully opaque (and empty) pixel data has no translucent sample |
| `ImageFormat.ChooseOutput` | hosted_editor/editor.js:414-440 | the output is PNG exactly for a transparent PNG source, GIF exactly for an animated GIF source, JPEG otherwise; the width is min(width, maxWidth) |
| `EditorSession.Finalize` | hosted_editor/editor.js:119-125 | the HTML handed to the host is normalized and a fixpoint of `normalizeWidths` |
| `EditorSession.LengthBand` | hosted_editor/editor.js:43-51 | warning exactly when 112500 < count < 125000, at the cap exactly when count ≥ 125000, normal otherwise |
| `EditorSession.Truncated` | hosted_editor/editor.js:57-59 | the result is a prefix of at most 125000 characters; it equals the document exactly when the document is not longer than 125000, and is exactly 125000 long otherwise |
| `EditorSession.Session.constructor` | hosted_editor/editor.js:7-13 | the page starts with nothing queued, no editor, nothing applied, no paste and no upload |
| `EditorSession.Session.Setup` | hosted_editor/editor.js:722-723 | `setup` records the editor instance and changes nothing else |
| `EditorSession.Session.ReceiveInit` | hosted_editor/editor.js:104-114 | an `init` applies its value at once when the editor is ready; before that it only queues it, overwriting any earlier value |
| `EditorSession.Session.RequestContent` | hosted_editor/editor.js:116-127 | `requestContent` posts `change` with the finalized editor document, or with the finalized queued value when there is no editor |
| `EditorSession.Session.OnMessage` | hosted_editor/editor.js:100-128 | non-objects and other message types change nothing; no origin is checked; an `init` applies its value at once when the editor is ready and otherwise only queues it; a `requestContent` posts `change` with the finalized rewritten document, or the finalized queue without an editor; applied content never reverts to unapplied |
| `EditorSession.Session.OnEditorReady` | hosted_editor/editor.js:724-734 | the ready event applies a non-empty queue once and clears it; an empty queue leaves the content unapplied |
| `EditorSession.Session.Edit` | hosted_editor/editor.js:739 | an edit changes the document and nothing else |
| `EditorSession.Session.OnContentEvent` | hosted_editor/editor.js:739-750 | `liveUpdate` with the finalized document is posted exactly when content has been applied and neither a paste nor an upload is running |
| `EditorSession.Session.EnforceLongTextLimit` | hosted_editor/editor.js:18-59 | while a paste or upload runs nothing is cut; otherwise the band follows the length and the document becomes its first 125000 characters exactly when longer |
| `EditorSession.Session.BeginUpload` | hosted_editor/editor.js:595-596 | an upload start raises the counter and sets the uploading flag |
| `EditorSession.Session.EndUpload` | hosted_editor/editor.js:614-623 | an upload end lowers the counter; a length check is scheduled exactly when it reaches zero; the uploading flag stays equal to `activeUploads > 0` |
| `EditorSession.Session.BeginPaste` | hosted_editor/editor.js:783-785 | a paste sets the paste flag and hands TinyMCE the cleaned paste |
| `EditorSession.Session.EndPaste` | hosted_editor/editor.js:788-793 | the paste flag is cleared and the length guard runs |
| `EditorSession.TwoInitsBeforeReady` | hosted_editor/editor.js:104-114 | with two `init` messages before the ready event, the second one's value is applied |
| `EditorSession.LengthGuardCaps` | hosted_editor/editor.js:57-59 | whatever the document, after the guard it is a prefix of at most 125000 characters |
| `EditorSession.OverlappingUploads` | hosted_editor/editor.js:595-623 | with two overlapping uploads the flag stays set after the first end and no check is scheduled; after the second end the flag is clear and a check is scheduled |
| `HostComponent.RequestCountAppend` | lwc/bbyoRichTextEditor/bbyoRichTextEditor.js:32-35 | counting `requestContent` messages distributes over appending message lists |
| `HostComponent.Component.constructor` | lwc/bbyoRichTextEditor/bbyoRichTextEditor.js:7-13 | a new component has its Flow properties, no request made and nothing posted or dispatched |
| `HostComponent.Component.FrameStyle` | lwc/bbyoRichTextEditor/bbyoRichTextEditor.js:40-43 | the style uses the component's height in pixels when it is truthy and 600 px otherwise |
| `HostComponent.Component.SetTriggerFinish` | lwc/bbyoRichTextEditor/bbyoRichTextEditor.js:10 | Flow setting `TriggerFinish` changes nothing else and keeps the one-request invariant |
| `HostComponent.Component.RenderedCallback` | lwc/bbyoRichTextEditor/bbyoRichTextEditor.js:26-38 | the guard is set on the first render with a truthy `TriggerFinish`, even without a frame; `requestContent` is posted only then and only with a frame; at most one is ever posted |
| `HostComponent.Component.SendInitMessage` | lwc/bbyoRichTextEditor/bbyoRichTextEditor.js:50-62 | `init` carries `Contents`, or `''` when it is falsy, and nothing is sent without a frame |
| `HostComponent.Component.HandleMessage` | lwc/bbyoRichTextEditor/bbyoRichTextEditor.js:69-110 | wrong origins and non-object data change nothing; `liveUpdate` sets `Contents` and the mirror with no Flow event; `change` with a string sets them and dispatches exactly one event; anything else changes nothing |
| `HostComponent.RendersRequestAtMostOnce` | lwc/bbyoRichTextEditor/bbyoRichTextEditor.js:26-38 | for a fixed `TriggerFinish`, over any sequence of renders at most one `requestContent` is posted, and one is posted exactly when the trigger is truthy and the frame was there at the first render |
| `HostComponent.LookalikeOriginAccepted` | lwc/bbyoRichTextEditor/bbyoRichTextEditor.js:72 | any origin that merely contains `bbyosummer.org` is accepted, e.g. `https://bbyosummer.org.example.net` |
| `ImageUpload.ScalarText` | hosted_editor/img_upload/upload.php:25-31 | a string `data` is matched as it is; other scalars as PHP converts them |
| `ImageUpload.ParseHeader` | hosted_editor/img_upload/upload.php:31 | the header fits exactly when the text starts with `data:image/`, then `png`, `jpeg`, `jpg` or `gif`, then `;base64,` (case-sensitive) |
| `ImageUpload.HeaderUnique` | hosted_editor/img_upload/upload.php:31 | at most one alternative of the header pattern fits a text |
| `ImageUpload.ParseHeaderFinds` | hosted_editor/img_upload/upload.php:31-36 | the captured subtype is the one alternative that fits |
| `ImageUpload.Extension` | hosted_editor/img_upload/upload.php:37-38 | the extension is always png, jpeg or gif, with jpg renamed jpeg |
| `ImageUpload.PayloadFollowsHeader` | hosted_editor/img_upload/upload.php:43 | the text after the first comma is exactly the text after the header |
| `ImageUpload.Bin2HexIsLowerHex` | hosted_editor/img_upload/upload.php:55 | `bin2hex` writes only lower-case hexadecimal digits, two per byte |
| `ImageUpload.Bin2HexRoundTrip` | hosted_editor/img_upload/upload.php:55 | reading back the hexadecimal text gives the random bytes |
| `ImageUpload.StoredNameShape` | hosted_editor/img_upload/upload.php:54-56 | the stored name is the decimal timestamp, `-`, ten hex digits spelling the five random bytes, `.` and the extension; the timestamp reads back from it |
| `ImageUpload.Upload` | hosted_editor/img_upload/upload.php:13-95 | every failure carries one of the six messages; on success the URL is the public base + folder + stored name |
| `ImageUpload.Store` | hosted_editor/img_upload/upload.php:31-95 | the checks on the data text give one of the four later messages or a success under the month's folder |
| `ImageUpload.UploadCascade` | hosted_editor/img_upload/upload.php:13-31 | "No input received" exactly for a falsy body; "Invalid payload" exactly when the body passes but `data` is not set; the script aborts exactly when an array stands where a string is needed; otherwise the data text decides |
| `ImageUpload.StoreCascade` | hosted_editor/img_upload/upload.php:31-85 | each later error is given exactly when its own check fails and all earlier checks pass, and success exactly when all pass |
| `ImageUpload.StoreSuccess` | hosted_editor/img_upload/upload.php:36-95 | a success names the stored file with the header's extension in `{year}/{month}/`, answers the public URL, and writes the payload decoded from after the header |
| `ImageUpload.UploadIgnoresClientFilename` | hosted_editor/img_upload/upload.php:26 | two requests differing only in a non-array `filename` get the same answer |

## Left out

- TinyMCE and the DOM are not modelled: the editor configuration, toolbar buttons, the CTA, rule and footer dialogs, click handlers, the header-image repair and `repairNonEditable`. The document is the text `getContent()` returns, and `rewriteLinksOnSave` works on the list of anchor hrefs.
- `colorMapToSelectOptions` and `generateFooterHtml` are not modelled. They only format static colour and footer data, so the placeholder replaces of the footer template are not among the patterns.
- The header-image replace in the paste chain is not modelled. Its callback returns each match unchanged, so it changes nothing.
- Image I/O is not modelled: canvas, `Image`, `FileReader`, blobs, encoding, the `onerror` fallback. `IsAnimatedGif` and `PngHasTransparency` take the bytes they would read, and unreadable pixels are `None`.
- The floating-point height scaling of `optimizeImage` is not modelled; `ImageFormat.ChooseOutput` decides only the width and the type.
- `new URL(...)` is a parameter, a partial function from text to the parsed href. The branch for the editor's own host changes nothing and is not modelled.
- Timers, `fetch` and `postMessage` delivery are not modelled. Each handler runs as one atomic event, and a delayed callback is a separate later event. Overlapping uploads are interleaved begin and end events.
- `EditorSession.Session.RequestContent` takes the rewritten document as a parameter. The walk over the editor's anchors is TinyMCE's, and `Links.RewriteLinksOnSave` models the pass over the anchors' hrefs.
- `EditorSession.Session.EnforceLongTextLimit` stops at truncation. The counter text and colours are UI. The selection collapse and the alert never run in the source: editor.js:60 calls `editor.getBody()` where no `editor` is in scope, so the call throws right after `setContent(trimmed)`. Lengths are counted in characters, not UTF-16 code units.
- `setContent` inside a handler does not fire the `SetContent` handlers within the same event. The environment calls `OnContentEvent` and `EnforceLongTextLimit` as separate events. In the source, TinyMCE fires `SetContent` synchronously inside `setContent` (editor.js:110 and 730). The first application of an `init` happens while `initialContentApplied` is still false, so it posts no `liveUpdate`. A later `init`, arriving after content was applied, fires `SetContent` with the flag already true (editor.js:111), so the handler at editor.js:739-749 posts a `liveUpdate` of the new content within the same event. The model leaves that post to a later `OnContentEvent`.
- Only `init` values that are strings, or absent, are modelled. `data.value || ''` on other values is not modelled.
- In the component, the hidden `#mirror` element is assumed present. Its value is the mirror field, and a missing mirror is not modelled.
- The listener registration in `connectedCallback`/`disconnectedCallback` and `handleFrameLoad` are not modelled; `SendInitMessage` is the part with behaviour.
- `HostComponent.JsValue` numbers are integers: fractional heights and `NaN` are not modelled.
- PHP host functions are parameters of the model: `file_get_contents`, `json_decode`, `base64_decode`, `time`, `random_bytes`, `date`, `is_dir`, `mkdir` and `file_put_contents`. The `echo`/`exit` output is the `Response` value. JSON numbers with fractions are not modelled.
- `ImageUpload.Upload` and `ImageUpload.UploadCascade`: the abort for an array `filename` or `data` assumes PHP 8, where `basename` and `preg_match` throw a `TypeError` on an array. Under PHP 7 they only warn and return `null`/`false`, and an array `data` would instead answer "Invalid or unsupported image format".
