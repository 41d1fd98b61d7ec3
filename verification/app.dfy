/** The conversion orchestrator (App.tsx): the session state, the view machine
    landing → converter → result, the conversion pipeline encode → extract →
    package → record, and the history kept in memory beside the persisted one.
    Each handler is one atomic step; the outcome of the file read and the
    remote model's reply are inputs. */
module App {
  import opened Wrappers
  import opened Strings
  import opened Types
  import opened Utils
  import opened GeminiService
  import opened ResultPanel
  import opened SettingsModal
  import Converter

  /** The settings a session starts with: Arabic, right to left. */
  const InitialSettings: AppSettings := AppSettings(Ar, true)

  datatype View = Landing | ConverterView | ResultView

  /** The session state held by the application component. `store` is the
      persisted history key; `history` is the copy shown by the history dialog. */
  datatype AppState = AppState(
    settings: AppSettings,
    view: View,
    isSettingsOpen: bool,
    isHistoryOpen: bool,
    history: seq<ConversionItem>,
    isConverting: bool,
    resultData: Option<ResultData>,
    store: HistorySlot)

  /** The state once the application has mounted over an existing store: the
      mount effect has loaded the persisted history. */
  function Init(store: HistorySlot): AppState {
    AppState(InitialSettings, Landing, false, false, GetHistory(store), false, None, store)
  }

  // ---------------------------------------------------------------------------
  // Direction and file type
  // ---------------------------------------------------------------------------

  /** Whether the converted content is laid out right to left: an Arabic hint
      forces it, an English hint forbids it, and Auto follows the interface
      language. */
  function ContentIsRtl(lang: DocLanguage, ui: UiLanguage): bool {
    lang == Arabic || (lang == Auto && ui == Ar)
  }

  /** The full truth table of the direction rule. */
  lemma DirectionTable(ui: UiLanguage)
    ensures ContentIsRtl(Arabic, ui)
    ensures !ContentIsRtl(English, ui)
    ensures ContentIsRtl(Auto, ui) <==> ui == Ar
  {
  }

  /** With coupled settings, Auto yields the interface direction. */
  lemma AutoFollowsInterfaceDirection(settings: AppSettings)
    requires Coupled(settings)
    ensures ContentIsRtl(Auto, settings.language) == settings.isRTL
  {
  }

  /** Recorded when the name yields no extension. */
  const DefaultFileType: string := "file"

  /** `file.name.split('.').pop() || 'file'`: the text after the last dot (the
      whole name when there is none), or "file" when that text is empty. */
  function FileType(name: string): (t: string)
    ensures t != ""
    ensures (|name| == 0 || name[|name| - 1] == '.') ==> t == DefaultFileType
    ensures !(|name| == 0 || name[|name| - 1] == '.') ==>
      IsSuffix(t, name) && '.' !in t && (|t| == |name| || name[|name| - |t| - 1] == '.')
  {
    var last := LastPiece(name, '.');
    assert |name| > 0 && name[|name| - 1] == '.' ==> |last| == 0;
    if last == "" then DefaultFileType else last
  }

  /** The file type of `base.ext` is `ext`. */
  lemma FileTypeOfExtension(base: string, ext: string)
    requires ext != "" && '.' !in ext
    ensures FileType(base + "." + ext) == ext
  {
    LastPieceAfterSeparator(base, '.', ext);
  }

  // ---------------------------------------------------------------------------
  // The conversion pipeline
  // ---------------------------------------------------------------------------

  /** Prepended to the document so that the word processor reads it as UTF-8. */
  const ByteOrderMark: char := '\U{FEFF}'

  const WordMimeType: string := "application/msword"

  /** How reading the file as a data URL ended. */
  datatype ReadOutcome = ReadOk(dataUrl: string) | ReadError

  /** The remote model: given the payload (absent when the data URL had no
      comma), the MIME type and the target hint, it answers or fails. */
  type RemoteModel = (Option<string>, string, DocLanguage) -> RemoteReply

  /** Where a failed conversion stopped. */
  datatype ConvertFailure = EncodeFailed | ExtractFailed(message: string)

  /** What a successful run produces: the result for the result screen and the history entry. */
  datatype Produced = Produced(result: ResultData, entry: ConversionItem)

  /** The reply the remote model gives for this read and request. */
  function ReplyFor(remote: RemoteModel, dataUrl: string, file: File, lang: DocLanguage): RemoteReply {
    remote(DataUrlPayload(dataUrl), file.mimeType, lang)
  }

  /** The body of `handleConvert`'s `try` block, up to the state updates. It
      fails exactly when the read or the remote call fails; on success the
      blob is a byte-order mark followed by the sanitised reply packaged with
      the chosen direction, and the entry describes the input file. */
  function RunPipeline(ui: UiLanguage, file: File, lang: DocLanguage, read: ReadOutcome,
                       remote: RemoteModel, id: string, date: string): (r: Result<Produced, ConvertFailure>)
    ensures r.Failure? <==> read.ReadError? || ReplyFor(remote, read.dataUrl, file, lang).CallFailed?
    ensures read.ReadError? ==> r == Failure(EncodeFailed)
    ensures r.Success? ==>
      var html := Sanitize(ReplyText(ReplyFor(remote, read.dataUrl, file, lang).text));
      var content := r.value.result.blob.content;
      && r.value.result.fileName == file.name
      && r.value.result.blob.mimeType == WordMimeType
      && |content| > 0 && content[0] == ByteOrderMark
      && content[1..] == WrapHtmlForWord(html, ContentIsRtl(lang, ui))
      && r.value.entry == ConversionItem(id, file.name, FileType(file.name), file.size, date, StatusSuccess)
  {
    match read
    case ReadError => Failure(EncodeFailed)
    case ReadOk(dataUrl) =>
      match ConvertToWordHtml(ReplyFor(remote, dataUrl, file, lang))
      case Failure(message) => Failure(ExtractFailed(message))
      case Success(html) =>
        var rtl := ContentIsRtl(lang, ui);
        var doc := WrapHtmlForWord(html, rtl);
        var blob := Blob([ByteOrderMark] + doc, WordMimeType);
        assert blob.content[1..] == doc;
        var entry := ConversionItem(id, file.name, FileType(file.name), file.size, date, StatusSuccess);
        Success(Produced(ResultData(blob, file.name), entry))
  }

  /** The delivered document reads back as the sanitised reply and the chosen direction. */
  lemma PipelineDocumentReadsBack(ui: UiLanguage, file: File, lang: DocLanguage, read: ReadOutcome,
                                  remote: RemoteModel, id: string, date: string)
    requires read.ReadOk? && ReplyFor(remote, read.dataUrl, file, lang).Answered?
    ensures RunPipeline(ui, file, lang, read, remote, id, date).Success?
    ensures var html := Sanitize(ReplyText(ReplyFor(remote, read.dataUrl, file, lang).text));
      Unwrap(RunPipeline(ui, file, lang, read, remote, id, date).value.result.blob.content[1..])
        == Some(Packaged(html, ContentIsRtl(lang, ui)))
  {
    var html := Sanitize(ReplyText(ReplyFor(remote, read.dataUrl, file, lang).text));
    UnwrapWrap(html, ContentIsRtl(lang, ui));
  }

  /** Entering `handleConvert`: the in-progress flag is raised. */
  function BeginConvert(s: AppState): AppState {
    s.(isConverting := true)
  }

  /** Leaving `handleConvert`: on success the result is stored, one entry is
      saved and prepended to the in-memory list, and the result view shown;
      on failure only the flag changes. The flag is lowered either way. */
  function FinishConvert(s: AppState, outcome: Result<Produced, ConvertFailure>): AppState {
    match outcome
    case Failure(_) => s.(isConverting := false)
    case Success(p) =>
      s.(resultData := Some(p.result),
         store := SaveToHistory(s.store, p.entry),
         history := [p.entry] + s.history,
         view := ResultView,
         isConverting := false)
  }

  /** `handleConvert` run to completion. */
  function HandleConvert(s: AppState, file: File, lang: DocLanguage, read: ReadOutcome,
                         remote: RemoteModel, id: string, date: string): (r: AppState)
    ensures !r.isConverting
    ensures r.settings == s.settings && r.isSettingsOpen == s.isSettingsOpen && r.isHistoryOpen == s.isHistoryOpen
    ensures var outcome := RunPipeline(s.settings.language, file, lang, read, remote, id, date);
      && (outcome.Failure? ==> r == s.(isConverting := false))
      && (outcome.Success? ==>
            && r.view == ResultView
            && r.resultData == Some(outcome.value.result)
            && GetHistory(r.store) == [outcome.value.entry] + Take(GetHistory(s.store), HistoryLimit - 1)
            && r.history == [outcome.value.entry] + s.history)
  {
    var outcome := RunPipeline(s.settings.language, file, lang, read, remote, id, date);
    var r := FinishConvert(BeginConvert(s), outcome);
    r
  }

  /** `handleConvert` when the pipeline succeeds but the store write of
      `saveToHistory` throws (storage full or blocked): the result was already
      handed over, the throw skips the in-memory prepend and the switch to the
      result view, and the catch only reports the error. So the view, the
      store and the shown list stay, and the unseen result replaces the old one. */
  function HandleConvertStoreThrows(s: AppState, file: File, lang: DocLanguage, read: ReadOutcome,
                                    remote: RemoteModel, id: string, date: string): (r: AppState)
    ensures !r.isConverting
    ensures r.view == s.view && r.store == s.store && r.history == s.history
    ensures r.settings == s.settings && r.isSettingsOpen == s.isSettingsOpen && r.isHistoryOpen == s.isHistoryOpen
    ensures var outcome := RunPipeline(s.settings.language, file, lang, read, remote, id, date);
      && (outcome.Failure? ==> r.resultData == s.resultData)
      && (outcome.Success? ==> r.resultData == Some(outcome.value.result))
  {
    match RunPipeline(s.settings.language, file, lang, read, remote, id, date)
    case Failure(_) => s.(isConverting := false)
    case Success(p) => s.(resultData := Some(p.result), isConverting := false)
  }

  /** A throwing store write is the successful run cut short after the result
      is handed over: the same result, but neither the saved entry, nor the
      prepended list, nor the result view. */
  lemma StoreThrowCutsSuccessShort(s: AppState, file: File, lang: DocLanguage, read: ReadOutcome,
                                   remote: RemoteModel, id: string, date: string)
    requires read.ReadOk? && ReplyFor(remote, read.dataUrl, file, lang).Answered?
    ensures HandleConvertStoreThrows(s, file, lang, read, remote, id, date)
         == HandleConvert(s, file, lang, read, remote, id, date).(view := s.view, store := s.store, history := s.history)
  {
  }

  /** The flag is up for the whole run, so the convert button refuses a second
      start while one is in flight. */
  lemma NoSecondStartWhileConverting(s: AppState, c: Converter.ConverterState)
    ensures BeginConvert(s).isConverting
    ensures Converter.ClickConvertButton(c, BeginConvert(s).isConverting).None?
  {
  }

  /** `handleConvert` itself does not look at the flag: it runs the same way
      whether or not a conversion is already marked in progress. */
  lemma HandleConvertIgnoresFlag(s: AppState, file: File, lang: DocLanguage, read: ReadOutcome,
                                 remote: RemoteModel, id: string, date: string)
    ensures HandleConvert(s.(isConverting := true), file, lang, read, remote, id, date)
         == HandleConvert(s.(isConverting := false), file, lang, read, remote, id, date)
  {
  }

  /** The in-memory list is prepended without the cap, so it can outgrow the
      persisted one until the history dialog is toggled. */
  lemma InMemoryHistoryUncapped(s: AppState, file: File, lang: DocLanguage, read: ReadOutcome,
                                remote: RemoteModel, id: string, date: string)
    requires |s.history| >= HistoryLimit
    requires read.ReadOk? && ReplyFor(remote, read.dataUrl, file, lang).Answered?
    ensures |HandleConvert(s, file, lang, read, remote, id, date).history| > HistoryLimit
    ensures |GetHistory(HandleConvert(s, file, lang, read, remote, id, date).store)| <= HistoryLimit
  {
  }

  // ---------------------------------------------------------------------------
  // The other handlers
  // ---------------------------------------------------------------------------

  /** `handleStart`. */
  function HandleStart(s: AppState): AppState {
    s.(view := ConverterView)
  }

  /** `handleReset`: the result is discarded and the upload screen shown again. */
  function HandleReset(s: AppState): AppState {
    s.(resultData := None, view := ConverterView)
  }

  /** The navigation bar's home link. */
  function NavigateHome(s: AppState): AppState {
    s.(view := Landing)
  }

  /** A language button of the settings dialog; the dialog renders nothing,
      so offers no button, while closed. */
  function ChooseInterfaceLanguage(s: AppState, lang: UiLanguage): AppState {
    if s.isSettingsOpen then s.(settings := ChooseLanguage(s.settings, lang)) else s
  }

  /** Opening or closing the history dialog; a change of the flag reloads the
      in-memory list from the store. */
  function SetHistoryOpen(s: AppState, open: bool): AppState {
    if open == s.isHistoryOpen then s
    else s.(isHistoryOpen := open, history := GetHistory(s.store))
  }

  /** The history dialog's clear button: the store and the in-memory list are
      emptied. The button exists only while the dialog is open and shows at
      least one entry. */
  function ClearHistoryClicked(s: AppState): AppState {
    if s.isHistoryOpen && s.history != [] then s.(store := ClearHistory(s.store), history := []) else s
  }

  /** Everything that can happen to the session. */
  datatype Event =
    | Start
    | Home
    | Reset
    | Convert(file: File, lang: DocLanguage, read: ReadOutcome, remote: RemoteModel, id: string, date: string)
    | ConvertStoreThrows(file: File, lang: DocLanguage, read: ReadOutcome, remote: RemoteModel, id: string, date: string)
    | OpenSettings
    | CloseSettings
    | ChooseUiLanguage(ui: UiLanguage)
    | OpenHistory
    | CloseHistory
    | ClearHistoryButton

  function Step(s: AppState, e: Event): AppState {
    match e
    case Start => HandleStart(s)
    case Home => NavigateHome(s)
    case Reset => HandleReset(s)
    case Convert(file, lang, read, remote, id, date) => HandleConvert(s, file, lang, read, remote, id, date)
    case ConvertStoreThrows(file, lang, read, remote, id, date) =>
      HandleConvertStoreThrows(s, file, lang, read, remote, id, date)
    case OpenSettings => s.(isSettingsOpen := true)
    case CloseSettings => s.(isSettingsOpen := false)
    case ChooseUiLanguage(ui) => ChooseInterfaceLanguage(s, ui)
    case OpenHistory => SetHistoryOpen(s, true)
    case CloseHistory => SetHistoryOpen(s, false)
    case ClearHistoryButton => ClearHistoryClicked(s)
  }

  function Run(s: AppState, events: seq<Event>): AppState
    decreases |events|
  {
    if events == [] then s else Run(Step(s, events[0]), events[1..])
  }

  // ---------------------------------------------------------------------------
  // Properties of the view machine
  // ---------------------------------------------------------------------------

  /** What holds between any two handlers: direction and language are coupled,
      no conversion is marked in progress, the result view always has a
      result to show, and the store is within its cap. */
  predicate Invariant(s: AppState) {
    && Coupled(s.settings)
    && !s.isConverting
    && (s.view == ResultView ==> s.resultData.Some?)
    && |GetHistory(s.store)| <= HistoryLimit
  }

  /** The result screen shows a result (rather than nothing) in this state. */
  predicate ResultShown(s: AppState) {
    s.view == ResultView && s.resultData.Some?
  }

  /** Every handler keeps the invariant. */
  lemma StepKeepsInvariant(s: AppState, e: Event)
    requires Invariant(s)
    ensures Invariant(Step(s, e))
  {
  }

  /** The invariant holds in every state the session can reach from a store
      within its cap. */
  lemma {:induction false} ReachableInvariant(store: HistorySlot, events: seq<Event>)
    requires |GetHistory(store)| <= HistoryLimit
    ensures Invariant(Run(Init(store), events))
  {
    RunKeepsInvariant(Init(store), events);
  }

  lemma {:induction false} RunKeepsInvariant(s: AppState, events: seq<Event>)
    requires Invariant(s)
    ensures Invariant(Run(s, events))
    decreases |events|
  {
    if events != [] {
      StepKeepsInvariant(s, events[0]);
      RunKeepsInvariant(Step(s, events[0]), events[1..]);
    }
  }

  /** Whenever the result view is on, the result screen has something to show. */
  lemma ResultViewShowsResult(store: HistorySlot, events: seq<Event>)
    requires |GetHistory(store)| <= HistoryLimit
    ensures Run(Init(store), events).view == ResultView ==> ResultShown(Run(Init(store), events))
  {
    ReachableInvariant(store, events);
  }

  /** The view transitions: the session starts on the landing view, start and
      reset lead to the upload screen (reset also discarding the result), and
      home leads to the landing view from anywhere. */
  lemma ViewTransitions(s: AppState, store: HistorySlot)
    ensures Init(store).view == Landing && Init(store).resultData.None?
    ensures Step(s, Start).view == ConverterView
    ensures Step(s, Reset).view == ConverterView && Step(s, Reset).resultData.None?
    ensures Step(s, Home).view == Landing
  {
  }

  /** A failed read or remote call leaves everything as it was, apart from
      lowering the flag: no view change and no history entry. */
  lemma FailureChangesNothing(s: AppState, file: File, lang: DocLanguage, read: ReadOutcome,
                              remote: RemoteModel, id: string, date: string)
    requires !s.isConverting
    requires read.ReadError? || ReplyFor(remote, read.dataUrl, file, lang).CallFailed?
    ensures HandleConvert(s, file, lang, read, remote, id, date) == s
  {
  }

  /** Toggling the history dialog replaces the in-memory list with the capped persisted one. */
  lemma HistoryToggleReloads(s: AppState, open: bool)
    requires open != s.isHistoryOpen
    ensures SetHistoryOpen(s, open).history == GetHistory(s.store)
  {
  }

  /** The clear button empties both the store and the shown list; with the
      dialog closed or showing no entry there is no button and nothing changes. */
  lemma ClearEmptiesHistory(s: AppState)
    ensures s.isHistoryOpen && s.history != [] ==>
      GetHistory(ClearHistoryClicked(s).store) == [] && ClearHistoryClicked(s).history == []
    ensures !s.isHistoryOpen || s.history == [] ==> ClearHistoryClicked(s) == s
  {
  }

  /** A language button pressed in the open dialog sets the language and its
      direction whatever the settings were; the closed dialog offers no button. */
  lemma InterfaceLanguageChoice(s: AppState, lang: UiLanguage)
    ensures s.isSettingsOpen ==> ChooseInterfaceLanguage(s, lang).settings == AppSettings(lang, lang == Ar)
    ensures !s.isSettingsOpen ==> ChooseInterfaceLanguage(s, lang) == s
  {
  }

  /** The interface language, whichever buttons were pressed, keeps its direction coupled. */
  lemma {:induction false} SettingsStayCoupled(s: AppState, choices: seq<UiLanguage>)
    requires Coupled(s.settings)
    ensures Coupled(ChooseAll(s, choices).settings)
    decreases |choices|
  {
    if choices != [] {
      SettingsStayCoupled(ChooseInterfaceLanguage(s, choices[0]), choices[1..]);
    }
  }

  function ChooseAll(s: AppState, choices: seq<UiLanguage>): AppState
    decreases |choices|
  {
    if choices == [] then s else ChooseAll(ChooseInterfaceLanguage(s, choices[0]), choices[1..])
  }

  /** A conversion whose read and remote call succeed ends on the result view
      with a downloadable document in the chosen direction, named after the
      input, and with the input's success entry first in the store. */
  lemma SuccessDelivers(s: AppState, file: File, lang: DocLanguage, read: ReadOutcome,
                        remote: RemoteModel, id: string, date: string)
    requires read.ReadOk? && ReplyFor(remote, read.dataUrl, file, lang).Answered?
    ensures var r := HandleConvert(s, file, lang, read, remote, id, date);
      && r.view == ResultView
      && r.resultData.Some? && r.resultData.value.fileName == file.name
      && HandleDownload(r.resultData) == Some(Download(r.resultData.value.blob, DownloadName(file.name)))
      && Unwrap(r.resultData.value.blob.content[1..]).Some?
      && Unwrap(r.resultData.value.blob.content[1..]).value.isRTL == ContentIsRtl(lang, s.settings.language)
      && GetHistory(r.store)[0] == ConversionItem(id, file.name, FileType(file.name), file.size, date, StatusSuccess)
  {
    PipelineDocumentReadsBack(s.settings.language, file, lang, read, remote, id, date);
  }

  /** The names derived from "report.txt". */
  lemma ReportNames()
    ensures FileType("report.txt") == "txt"
    ensures DownloadName("report.txt") == "report.doc"
  {
    ReportFileType();
    ReportDownloadName();
  }

  lemma ReportFileType()
    ensures FileType("report.txt") == "txt"
  {
    assert "report" + "." + "txt" == "report.txt";
    FileTypeOfExtension("report", "txt");
  }

  lemma ReportDownloadName()
    ensures DownloadName("report.txt") == "report.doc"
  {
    assert "report" + "." + "txt" == "report.txt";
    ReplacesFinalExtension("report", "txt");
  }

  /** A 2 MB plain-text file converted with the Auto hint under the Arabic
      interface: the result view shows a right-to-left document offered as
      `report.doc`, and one success entry of type "txt" and size 2000000 is
      stored first. */
  lemma PlainTextScenario(s: AppState, read: ReadOutcome, remote: RemoteModel, id: string, date: string)
    requires s.settings.language == Ar
    requires read.ReadOk?
    requires ReplyFor(remote, read.dataUrl, File("report.txt", 2000000, "text/plain"), Auto).Answered?
    ensures var r := HandleConvert(s, File("report.txt", 2000000, "text/plain"), Auto, read, remote, id, date);
      && r.view == ResultView
      && HandleDownload(r.resultData).Some?
      && HandleDownload(r.resultData).value.name == "report.doc"
      && Unwrap(r.resultData.value.blob.content[1..]).Some?
      && Unwrap(r.resultData.value.blob.content[1..]).value.isRTL
      && GetHistory(r.store)[0] == ConversionItem(id, "report.txt", "txt", 2000000, date, StatusSuccess)
  {
    SuccessDelivers(s, File("report.txt", 2000000, "text/plain"), Auto, read, remote, id, date);
    ReportNames();
  }
}
