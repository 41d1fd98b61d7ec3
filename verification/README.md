# PDF-to-Word converter with Arabic support — a Dafny model of its core

The application takes an uploaded PDF, image or text file and sends it, base64
encoded, to a remote vision model. The model answers with HTML. The application
cleans that HTML, wraps it in an HTML shell that Word opens as a document, and
offers it for download as `<name>.doc`. It records each successful conversion
in a browser-local history capped at ten entries. The interface is bilingual:
Arabic (right to left) and English (left to right).

This project models the logic of that core as pure Dafny functions over
immutable state, one module per source file:

- `Utils` (utils.ts): the data-URL payload split, and the history store as an
  optional list under one key (read, save with the cap of ten, clear).
- `GeminiService` (services/geminiService.ts): the reply sanitiser (remove
  "```html", then "```", then trim), the error rethrow, and the Word
  packager `wrapHtmlForWord` with the template text reproduced character for
  character, together with its read-back `Unwrap`.
- `App` (App.tsx): the session state, the view machine
  landing → converter → result, the conversion pipeline, the document
  direction rule, the file-type rule, the in-memory history list, and an
  invariant kept by every handler.
- `Converter` (components/Converter.tsx): the 25 MiB size gate, the drag
  highlight, the first-file rule, the target-language choice and the convert
  button, which is disabled while a conversion runs.
- `ResultPanel` (components/Result.tsx): the download name
  `replace(/\.[^/.]+$/, "") + ".doc"`.
- `SettingsModal` (components/SettingsModal.tsx and the merge at App.tsx:142):
  the two language payloads and the spread merge.
- `Strings`: the JavaScript string operations the core relies on, each
  with its own contract:
  - `split` and `pop`;
  - a global `replace` of a literal, as a left-to-right, non-overlapping scan;
  - `trim`, over the ECMAScript WhiteSpace and LineTerminator set.
- `Types` (types.ts) and `Wrappers` (`Option`, `Result`).

Effects become inputs:
- The file read is a `ReadOutcome`: a data URL, or an error.
- The remote model is a function parameter returning a `RemoteReply`: an
  answer whose text may be missing, or a failure whose message may be missing.
- The clock-derived `id` and `date` of a history entry are plain parameters.

On these points the model follows the code, which a reader might expect to behave otherwise:
- The size gate refuses only files strictly larger than 26214400 bytes, so a
  file of exactly 25 MiB is accepted.
- A failed conversion leaves the view where it was. Only the in-progress flag
  is lowered.
- A store write that throws inside `saveToHistory` (storage full or blocked)
  lands in the same catch after the result was already handed over. The view,
  the store and the shown list stay, and the new result silently replaces the
  old one (`App.HandleConvertStoreThrows`).
- A second start while a conversion runs is prevented only by the disabled
  button. `handleConvert` itself does not check the flag
  (`App.HandleConvertIgnoresFlag`).
- The in-memory history list is prepended without the cap
  (`App.InMemoryHistoryUncapped`). It is reloaded from the capped store
  whenever the history dialog is opened or closed.
- History ids are `Date.now()` strings and are not guaranteed unique.
  Saving never deduplicates (`Utils.SaveKeepsDuplicates`).

## Model

| member | source | states |
|---|---|---|
| Utils.DataUrlPayload | utils.ts:10 | the payload is absent exactly when the data URL holds no comma, and a present payload holds no comma |
| Utils.PayloadBetweenCommas | utils.ts:10 | the payload is exactly the text between the first comma and the next comma or the end |
| Utils.PayloadOfBase64DataUrl | utils.ts:3-11 | a `data:<mime>;base64,<payload>` URL gives back its raw payload |
| Utils.SaveToHistory | utils.ts:31-36 | after a save the key is present and holds the new entry first, followed by at most nine previous entries in order; the length is min(old + 1, 10) |
| Utils.Take | utils.ts:34 | `slice(0, n)`: the first min(n, length) entries, in order |
| Utils.ClearHistory | utils.ts:38-40 | after a clear the history reads as empty |
| Utils.GetHistoryEmpty | utils.ts:26-29 | the history reads as empty exactly when the key is absent or holds the empty list |
| Utils.SaveEvictsOldest | utils.ts:33-34 | with ten entries stored, a save drops exactly the oldest and adds the new one (as a multiset) |
| Utils.SaveKeepsDuplicates | utils.ts:34 | below the cap, a save adds one occurrence of the entry even if an equal entry is stored |
| Utils.SaveAllNewestFirst | utils.ts:31-36 | after any run of saves the store holds the newest entries first, in reverse save order, followed by older ones, cut to ten |
| Utils.ElevenSavesEvictFirst | utils.ts:33-34 | eleven distinct saves into an empty store keep the last ten, newest first, and the first is gone |
| Utils.StoreStaysBounded | utils.ts:31-40 | after any sequence of saves and clears (at least one) the store holds at most ten entries |
| Strings.Split | utils.ts:10 | there is at least one piece, no piece holds the separator, and the pieces joined with the separator give back the input |
| Strings.SplitJoin | utils.ts:10 | splitting a join of separator-free pieces gives back those pieces |
| Strings.LastPiece | App.tsx:82 | `split(sep).pop()` is the final separator-free suffix, preceded by a separator unless it is the whole string |
| Strings.RemoveAll | services/geminiService.ts:58 | the left-to-right, non-overlapping removal never lengthens the text; what it removes is stated by the two rows below |
| Strings.RemoveAllAbsent | services/geminiService.ts:58 | removing a pattern that does not occur changes nothing |
| Strings.RemoveAllFenceFree | services/geminiService.ts:58 | after removing every "```" none occurs, even where removal joined backticks from both sides |
| Strings.Trim | services/geminiService.ts:58 | the result is trimmed and is the input with its leading and trailing whitespace removed |
| Strings.TrimTrimmed | services/geminiService.ts:58 | trimming already trimmed text changes nothing |
| GeminiService.Sanitize | services/geminiService.ts:58 | the cleaned reply contains no code fence and has no surrounding whitespace |
| GeminiService.NoHtmlFenceWithoutFence | services/geminiService.ts:58 | fence-free text holds no "```html" either |
| GeminiService.SanitizeClean | services/geminiService.ts:58 | trimmed, fence-free text passes the clean-up unchanged |
| GeminiService.SanitizeIdempotent | services/geminiService.ts:58 | cleaning twice equals cleaning once |
| GeminiService.SanitizeUnfenced | services/geminiService.ts:58 | text without fences loses nothing but its surrounding whitespace |
| GeminiService.SanitizeKeepsFencedBody | services/geminiService.ts:57-58 | a reply wrapped in a "```html" … "```" block comes back as its trimmed content |
| GeminiService.RemoveClosingFence | services/geminiService.ts:58 | removing every fence from fence-free text plus a closing fence removes exactly that fence, even after trailing backticks |
| GeminiService.ConvertToWordHtml | services/geminiService.ts:56-63 | it succeeds exactly when the call answered, with the cleaned text; a failure carries the original message, or the default one when that is missing or empty |
| GeminiService.EmptyReplyIsEmptyBody | services/geminiService.ts:56-58 | a missing or whitespace-only reply gives an empty body, not an error |
| GeminiService.RemoveAllWhitespace | services/geminiService.ts:58 | removing a pattern from whitespace-only text leaves whitespace-only text |
| GeminiService.UnwrapWrap | services/geminiService.ts:66-84 | the content and the direction flag read back from every packaged document |
| GeminiService.WrapInjective | services/geminiService.ts:66-84 | different contents or directions never package to the same document |
| GeminiService.PrefixesDiffer | services/geminiService.ts:78 | a left-to-right document never starts with the right-to-left prefix |
| GeminiService.PackagedDeclarations | services/geminiService.ts:68-79 | every packaged document declares UTF-8 and carries the Print-view directive |
| GeminiService.BodyTagAfterHead | services/geminiService.ts:77-78 | the body tag opens right after the document head |
| GeminiService.BodyDirection | services/geminiService.ts:78 | the `dir="rtl"` attribute follows the body style exactly when right to left is asked for |
| ResultPanel.StripFinalExtension | components/Result.tsx:19 | the result is a prefix of the name, and the pattern `\.[^/.]+$` matches exactly where the name was cut, and nowhere when it was kept whole |
| ResultPanel.DownloadName | components/Result.tsx:19 | the offered name ends in ".doc" |
| ResultPanel.ReplacesFinalExtension | components/Result.tsx:19 | `base.ext` is offered as `base.doc`, whatever dots `base` holds |
| ResultPanel.NoDotKeepsName | components/Result.tsx:19 | a name without a dot keeps all of itself and gains ".doc" |
| ResultPanel.TrailingDotKept | components/Result.tsx:19 | a trailing dot is not an extension: the name is kept and gains ".doc" |
| ResultPanel.DownloadNameExamples | components/Result.tsx:19 | "a.b.pdf" → "a.b.doc", "file." → "file..doc", "notes" → "notes.doc" |
| ResultPanel.HandleDownload | components/Result.tsx:14-24 | nothing is downloaded without a result; otherwise the result's blob is downloaded under exactly the derived name `DownloadName(fileName)` |
| Converter.ValidateAndSetFile | components/Converter.tsx:30-38 | the error is cleared exactly when the size is at most 25 MiB; an accepted file is selected, and a refused one keeps the previous selection |
| Converter.SizeBoundary | components/Converter.tsx:32 | 26214400 bytes are accepted and 26214401 refused |
| Converter.HandleDrag | components/Converter.tsx:20-28 | the highlight is on exactly after enter or over, and nothing else changes |
| Converter.HandleDrop | components/Converter.tsx:40-47 | the highlight is cleared and the target kept; only the first dropped file, if any, is validated: selected when within 25 MiB, otherwise an error and the previous selection kept |
| Converter.HandleChange | components/Converter.tsx:49-54 | only the first picked file, if any, is validated, as on a drop; with no file the selection and error stay |
| Converter.RemoveFile | components/Converter.tsx:119 | the selection is dropped and nothing else changes |
| Converter.ChooseTargetLanguage | components/Converter.tsx:150 | the chosen option becomes the target language and nothing else changes |
| Converter.HandleStartConversion | components/Converter.tsx:65-69 | a conversion is requested exactly when a file is selected, with that file and the chosen language |
| Converter.ClickConvertButton | components/Converter.tsx:164-165 | the button requests a conversion exactly when none is running and a file is selected, with that file and the chosen language |
| Converter.TargetLanguageIsLastChoice | components/Converter.tsx:150 | after any interactions the target language is the last option chosen |
| Converter.DefaultTargetIsAuto | components/Converter.tsx:16 | a fresh screen converts with Auto until an option is chosen |
| Converter.ApplyKeepsSelectionWithinLimit | components/Converter.tsx:30-38 | no interaction can select a file over 25 MiB when none was selected |
| Converter.RunKeepsSelectionWithinLimit | components/Converter.tsx:30-38 | after any interactions the selected file, if any, is within 25 MiB |
| Converter.OversizeNeverRequested | components/Converter.tsx:65-69 | the file the convert button hands to the orchestrator is never over 25 MiB, so an oversize file is never sent to the remote model |
| SettingsModal.MergeSettings | App.tsx:142 | each field the patch carries overrides, and each absent field is kept |
| SettingsModal.ChooseLanguage | components/SettingsModal.tsx:37-43 | a language button sets the language and its direction (right to left exactly for Arabic), whatever the settings were |
| SettingsModal.ChooseActiveLanguage | components/SettingsModal.tsx:37-43 | choosing the language already in effect leaves coupled settings unchanged |
| App.DirectionTable | App.tsx:65 | an Arabic hint gives right to left, an English hint left to right, and Auto right to left exactly under the Arabic interface |
| App.AutoFollowsInterfaceDirection | App.tsx:65 | with coupled settings, Auto follows the interface direction |
| App.FileType | App.tsx:82 | the recorded type is never empty: "file" for an empty name or a trailing dot, otherwise the final dot-free suffix of the name |
| App.FileTypeOfExtension | App.tsx:82 | `base.ext` is recorded with type `ext` |
| App.RunPipeline | App.tsx:56-86 | it fails exactly when the read or the remote call fails; on success the blob is a byte-order mark followed by the packaged cleaned reply in the chosen direction, with the Word MIME type and the input's name, and the entry describes the input file |
| App.PipelineDocumentReadsBack | App.tsx:61-71 | the delivered document reads back as the cleaned reply and the chosen direction |
| App.HandleConvert | App.tsx:54-97 | the flag ends lowered and settings and dialogs are untouched; on failure nothing else changes; on success the result view shows the result, one entry is saved first in the capped store and prepended to the shown list |
| App.HandleConvertStoreThrows | App.tsx:73-96 | when the store write throws, the flag ends lowered and view, store, shown list, settings and dialogs stay; a successful pipeline's result replaces the stored result, a failed one leaves it |
| App.StoreThrowCutsSuccessShort | App.tsx:73-90 | a throwing store write equals the successful run without the saved entry, the prepended list and the result view |
| App.NoSecondStartWhileConverting | App.tsx:55 | while the flag is up the convert button requests nothing |
| App.HandleConvertIgnoresFlag | App.tsx:54-56 | the handler behaves the same whether or not a conversion is already marked in progress |
| App.InMemoryHistoryUncapped | App.tsx:87-88 | the shown list can exceed ten entries while the store stays within ten |
| App.StepKeepsInvariant | App.tsx:50-152 | every handler keeps the invariant: coupled settings, no conversion in progress between handlers, a result whenever the result view is on, the store within its cap |
| App.ReachableInvariant | App.tsx:14-34 | the invariant holds in every state reachable from mount over a store within its cap |
| App.RunKeepsInvariant | App.tsx:50-152 | any run of handlers keeps the invariant |
| App.ResultViewShowsResult | App.tsx:125-131 | in every reachable state the result view has a result to show |
| App.ViewTransitions | App.tsx:21-111 | the session starts on the landing view; start and reset lead to the upload screen, reset discarding the result; home leads to the landing view |
| App.FailureChangesNothing | App.tsx:91-96 | a failed read or remote call leaves the state exactly as it was |
| App.HistoryToggleReloads | App.tsx:32-34 | opening or closing the history dialog reloads the shown list from the store |
| App.ClearEmptiesHistory | App.tsx:149-152 | the clear button, shown only in the open dialog with at least one entry, empties both the store and the shown list; otherwise nothing changes |
| App.InterfaceLanguageChoice | App.tsx:138-143 | a language button in the open dialog sets language and direction; with the dialog closed nothing changes |
| App.SettingsStayCoupled | components/SettingsModal.tsx:37-43 | any sequence of language choices keeps direction coupled to language |
| App.SuccessDelivers | App.tsx:54-97 | a successful conversion ends on the result view with a downloadable ".doc" document in the chosen direction and the input's entry first in the store |
| App.ReportNames | App.tsx:82 | "report.txt" is recorded with type "txt" and offered as "report.doc" |
| App.PlainTextScenario | App.tsx:54-97 | a plain-text file converted with Auto under the Arabic interface ends as a right-to-left "report.doc" and a "txt" success entry of its size |

## Left out

- The remote model call, its prompt and its model name are left out: the network is outside the model. The call's outcome is a parameter (`RemoteReply`), and `isArabicTarget` (services/geminiService.ts:16) is computed and never used (dead code).
- FileReader, the Blob object URL, link creation and the click: browser effects. The read outcome is a parameter and the download is a `Download` value.
- JSON serialisation of the store is taken to round-trip exactly. A corrupt stored value, which makes `JSON.parse` throw, is not modelled.
- `formatBytes` (utils.ts:17-24) uses floating-point logarithms and is only used for display.
- `Date.now()` and `new Date().toISOString()` become the `id` and `date` parameters.
- Asynchronous scheduling: each handler runs to completion as one step. Interleavings of overlapping conversions are not modelled, because the disabled button excludes them.
- A file read or remote call that never settles is not modelled: every conversion ends. The source has no timeout. The flag raised at App.tsx:55 is lowered only at App.tsx:94-96, so such a call would leave the convert button disabled (components/Converter.tsx:165) for the rest of the session. `App.Invariant`'s "no conversion in progress" holds between handlers only because each conversion is one finishing step.
- The effect that sets the page's `dir`, `lang` and font class (App.tsx:37-48) is presentation. So are `alert`, `console.error`, icons, the landing page, the navigation bar and all localized wording.
- The upload screen is mounted only while the converter view is on (App.tsx:117-123), so each time it is shown it starts as `Converter.InitialConverter`: no file, Auto, no error (components/Converter.tsx:14-18). The model does not carry its state across views.
- The file picker's `accept` list (components/Converter.tsx:88) is left out: it is only a hint to the browser, and `validateAndSetFile` checks only the size.
- The MIME type is not passed through the packager: the remote model receives it as a parameter and nothing else depends on it.
- Members without a contract of their own, whose properties the lemmas above state: App.Init, Utils.GetHistory, GeminiService.ReplyText, Strings.IsJsWhitespace, App.ContentIsRtl, App.BeginConvert, App.FinishConvert, App.HandleStart, App.HandleReset, App.NavigateHome, App.SetHistoryOpen, App.ClearHistoryClicked, App.ChooseInterfaceLanguage, SettingsModal.LanguagePayload, App.ReplyFor, App.Step and GeminiService.WrapHtmlForWord. `App.Step` also carries, inline, the handlers that open and close the settings dialog (App.tsx:109 and :140).
