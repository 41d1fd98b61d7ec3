/** The upload screen (components/Converter.tsx): the selected file, the size
    gate, the target-language choice, the drag highlight and the convert button. */
module Converter {
  import opened Wrappers
  import opened Types

  /** Largest accepted file: 25 MiB. */
  const MaxFileSize: nat := 25 * 1024 * 1024

  /** The inline error the screen can show (its localized wording is presentation). */
  datatype ConverterError = FileTooLarge

  /** The screen's local state. */
  datatype ConverterState = ConverterState(
    file: Option<File>,
    dragActive: bool,
    targetLang: DocLanguage,
    error: Option<ConverterError>)

  /** The state when the screen appears. */
  const InitialConverter: ConverterState := ConverterState(None, false, Auto, None)

  /** `validateAndSetFile`: a file over the limit is refused with an error and
      the previous selection stays; any other file is selected and the error
      cleared. Nothing else changes. */
  function ValidateAndSetFile(st: ConverterState, f: File): (st': ConverterState)
    ensures st'.error.None? <==> f.size <= MaxFileSize
    ensures st'.error.None? ==> st'.file == Some(f)
    ensures st'.error.Some? ==> st'.file == st.file
    ensures st'.dragActive == st.dragActive && st'.targetLang == st.targetLang
  {
    if f.size > MaxFileSize then st.(error := Some(FileTooLarge))
    else st.(error := None, file := Some(f))
  }

  /** The 25 MiB boundary: exactly 26214400 bytes is accepted, one more is refused. */
  lemma SizeBoundary(st: ConverterState, name: string, mime: string)
    ensures ValidateAndSetFile(st, File(name, 26214400, mime)).file == Some(File(name, 26214400, mime))
    ensures ValidateAndSetFile(st, File(name, 26214401, mime)).file == st.file
  {
  }

  /** The drag events the drop zone listens to. */
  datatype DragKind = DragEnter | DragOver | DragLeave

  /** `handleDrag`: entering or moving over the zone highlights it, leaving clears it. */
  function HandleDrag(st: ConverterState, kind: DragKind): (st': ConverterState)
    ensures st'.dragActive <==> kind != DragLeave
    ensures st' == st.(dragActive := st'.dragActive)
  {
    match kind
    case DragEnter => st.(dragActive := true)
    case DragOver => st.(dragActive := true)
    case DragLeave => st.(dragActive := false)
  }

  /** `handleDrop`: the highlight is cleared and only the first dropped file, if
      any, is validated. */
  function HandleDrop(st: ConverterState, files: seq<File>): (st': ConverterState)
    ensures !st'.dragActive && st'.targetLang == st.targetLang
    ensures |files| == 0 ==> st'.file == st.file && st'.error == st.error
    ensures |files| > 0 ==> (st'.error.None? <==> files[0].size <= MaxFileSize)
    ensures |files| > 0 && st'.error.None? ==> st'.file == Some(files[0])
    ensures |files| > 0 && st'.error.Some? ==> st'.file == st.file
  {
    var cleared := st.(dragActive := false);
    if |files| > 0 then ValidateAndSetFile(cleared, files[0]) else cleared
  }

  /** `handleChange`: the first picked file, if any, is validated. */
  function HandleChange(st: ConverterState, files: seq<File>): (st': ConverterState)
    ensures st'.dragActive == st.dragActive && st'.targetLang == st.targetLang
    ensures |files| == 0 ==> st'.file == st.file && st'.error == st.error
    ensures |files| > 0 ==> (st'.error.None? <==> files[0].size <= MaxFileSize)
    ensures |files| > 0 && st'.error.None? ==> st'.file == Some(files[0])
    ensures |files| > 0 && st'.error.Some? ==> st'.file == st.file
  {
    if |files| > 0 then ValidateAndSetFile(st, files[0]) else st
  }

  /** The remove button: the selection is dropped. */
  function RemoveFile(st: ConverterState): (st': ConverterState)
    ensures st'.file.None?
    ensures st'.dragActive == st.dragActive && st'.targetLang == st.targetLang && st'.error == st.error
  {
    st.(file := None)
  }

  /** An option button of the target-language choice. */
  function ChooseTargetLanguage(st: ConverterState, lang: DocLanguage): (st': ConverterState)
    ensures st'.targetLang == lang
    ensures st'.file == st.file && st'.dragActive == st.dragActive && st'.error == st.error
  {
    st.(targetLang := lang)
  }

  /** `handleStartConversion`: with no file selected nothing happens; otherwise
      the orchestrator is asked to convert the selected file with the chosen
      target language. */
  function HandleStartConversion(st: ConverterState): (call: Option<(File, DocLanguage)>)
    ensures call.None? <==> st.file.None?
    ensures call.Some? ==> call.value == (st.file.value, st.targetLang)
  {
    match st.file
    case None => None
    case Some(f) => Some((f, st.targetLang))
  }

  /** A click on the convert button: it is disabled while a conversion runs,
      which is the only guard against starting a second one. */
  function ClickConvertButton(st: ConverterState, isConverting: bool): (call: Option<(File, DocLanguage)>)
    ensures call.Some? <==> !isConverting && st.file.Some?
    ensures call.Some? ==> call.value == (st.file.value, st.targetLang)
  {
    if isConverting then None else HandleStartConversion(st)
  }

  /** A user interaction with the upload screen. */
  datatype ConverterEvent =
    | Drag(kind: DragKind)
    | Drop(files: seq<File>)
    | Pick(files: seq<File>)
    | Remove
    | ChooseLanguage(lang: DocLanguage)

  function ApplyConverterEvent(st: ConverterState, e: ConverterEvent): ConverterState {
    match e
    case Drag(kind) => HandleDrag(st, kind)
    case Drop(files) => HandleDrop(st, files)
    case Pick(files) => HandleChange(st, files)
    case Remove => RemoveFile(st)
    case ChooseLanguage(lang) => ChooseTargetLanguage(st, lang)
  }

  function RunConverter(st: ConverterState, events: seq<ConverterEvent>): ConverterState
    decreases |events|
  {
    if events == [] then st else RunConverter(ApplyConverterEvent(st, events[0]), events[1..])
  }

  /** The most recently chosen language among `events`, or `current` if none was chosen. */
  function LastChosenLanguage(current: DocLanguage, events: seq<ConverterEvent>): DocLanguage
    decreases |events|
  {
    if events == [] then current
    else if events[|events| - 1].ChooseLanguage? then events[|events| - 1].lang
    else LastChosenLanguage(current, events[..|events| - 1])
  }

  /** The target language only ever changes through the option buttons: after
      any interactions it is the last option chosen, and Auto when none was. */
  lemma {:induction false} TargetLanguageIsLastChoice(st: ConverterState, events: seq<ConverterEvent>)
    ensures RunConverter(st, events).targetLang == LastChosenLanguage(st.targetLang, events)
    decreases |events|
  {
    if events != [] {
      var st1 := ApplyConverterEvent(st, events[0]);
      assert st1.targetLang == if events[0].ChooseLanguage? then events[0].lang else st.targetLang;
      TargetLanguageIsLastChoice(st1, events[1..]);
      LastChoiceSplit(st.targetLang, events[0], events[1..]);
      assert [events[0]] + events[1..] == events;
    }
  }

  /** Peeling off the first event of a run for `LastChosenLanguage`. */
  lemma {:induction false} LastChoiceSplit(current: DocLanguage, e: ConverterEvent, rest: seq<ConverterEvent>)
    ensures LastChosenLanguage(current, [e] + rest)
         == LastChosenLanguage(if e.ChooseLanguage? then e.lang else current, rest)
    decreases |rest|
  {
    if rest != [] {
      var all := [e] + rest;
      assert all[..|all| - 1] == [e] + rest[..|rest| - 1];
      LastChoiceSplit(current, e, rest[..|rest| - 1]);
    } else {
      assert ([e] + rest)[..0] == [];
    }
  }

  /** A freshly shown screen converts with Auto until an option is chosen. */
  lemma DefaultTargetIsAuto(events: seq<ConverterEvent>)
    requires forall k :: 0 <= k < |events| ==> !events[k].ChooseLanguage?
    ensures RunConverter(InitialConverter, events).targetLang == Auto
  {
    TargetLanguageIsLastChoice(InitialConverter, events);
    NoChoiceKeepsLanguage(Auto, events);
  }

  lemma {:induction false} NoChoiceKeepsLanguage(current: DocLanguage, events: seq<ConverterEvent>)
    requires forall k :: 0 <= k < |events| ==> !events[k].ChooseLanguage?
    ensures LastChosenLanguage(current, events) == current
    decreases |events|
  {
    if events != [] {
      NoChoiceKeepsLanguage(current, events[..|events| - 1]);
    }
  }

  /** The size gate holds of the selection: a selected file is never over the limit. */
  predicate SelectionWithinLimit(st: ConverterState) {
    st.file.Some? ==> st.file.value.size <= MaxFileSize
  }

  /** Every interaction keeps the selection within the limit. */
  lemma ApplyKeepsSelectionWithinLimit(st: ConverterState, e: ConverterEvent)
    requires SelectionWithinLimit(st)
    ensures SelectionWithinLimit(ApplyConverterEvent(st, e))
  {
  }

  lemma {:induction false} RunKeepsSelectionWithinLimit(st: ConverterState, events: seq<ConverterEvent>)
    requires SelectionWithinLimit(st)
    ensures SelectionWithinLimit(RunConverter(st, events))
    decreases |events|
  {
    if events != [] {
      ApplyKeepsSelectionWithinLimit(st, events[0]);
      RunKeepsSelectionWithinLimit(ApplyConverterEvent(st, events[0]), events[1..]);
    }
  }

  /** A file over 25 MiB never reaches the conversion request, so no remote
      call is made for it: whatever the user did on a fresh screen, the file
      the convert button hands over is within the limit. */
  lemma OversizeNeverRequested(events: seq<ConverterEvent>, isConverting: bool)
    ensures var call := ClickConvertButton(RunConverter(InitialConverter, events), isConverting);
      call.Some? ==> call.value.0.size <= MaxFileSize
  {
    RunKeepsSelectionWithinLimit(InitialConverter, events);
  }
}
