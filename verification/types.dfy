/** The records shared by the application (types.ts). */
module Types {

  /** Outcome recorded for a conversion. */
  datatype Status = StatusSuccess | StatusFailed | StatusProcessing

  /** One entry of the conversion history. `fileSize` is a byte count; the
      identifier and the date are opaque strings supplied by the caller. */
  datatype ConversionItem = ConversionItem(
    id: string,
    fileName: string,
    fileType: string,
    fileSize: nat,
    date: string,
    status: Status)

  /** The target-language hint chosen for a document. */
  datatype DocLanguage = Arabic | English | Auto

  /** The interface language. */
  datatype UiLanguage = Ar | En

  /** Session-wide interface settings. */
  datatype AppSettings = AppSettings(language: UiLanguage, isRTL: bool)

  /** A user-selected file as the application sees it: its name, its size in
      bytes and its declared MIME type (the bytes are read elsewhere). */
  datatype File = File(name: string, size: nat, mimeType: string)
}
