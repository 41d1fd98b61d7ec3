/** The result screen (components/Result.tsx): the download of the packaged
    document under a name derived from the original file name. */
module ResultPanel {
  import opened Wrappers
  import opened Strings

  /** A blob: its text content and its MIME type. */
  datatype Blob = Blob(content: string, mimeType: string)

  /** What the orchestrator hands to the result screen. */
  datatype ResultData = ResultData(blob: Blob, fileName: string)

  /** A download the browser is asked to perform. */
  datatype Download = Download(blob: Blob, name: string)

  /** Where the pattern `\.[^/.]+$` matches `s`: a dot followed by at least one
      character, running to the end of `s`, none of which is a slash or a dot. */
  predicate ExtensionAt(s: string, i: int) {
    0 <= i < |s| - 1 && s[i] == '.' && forall j :: i < j < |s| ==> s[j] != '/' && s[j] != '.'
  }

  /** Number of trailing characters that are neither a slash nor a dot. */
  function TrailingNameChars(s: string): (n: nat)
    ensures n <= |s|
    ensures forall j :: |s| - n <= j < |s| ==> s[j] != '/' && s[j] != '.'
    ensures n == |s| || s[|s| - 1 - n] == '/' || s[|s| - 1 - n] == '.'
  {
    if |s| > 0 && s[|s| - 1] != '/' && s[|s| - 1] != '.' then
      1 + TrailingNameChars(s[..|s| - 1])
    else 0
  }

  /** `name.replace(/\.[^/.]+$/, "")`: the pattern can match in at most one
      place; when it does, the name is cut just before that dot, and otherwise
      it is kept whole. */
  function StripFinalExtension(name: string): (r: string)
    ensures IsPrefix(r, name)
    ensures forall i :: ExtensionAt(name, i) <==> (r != name && i == |r|)
  {
    var n := TrailingNameChars(name);
    if n >= 1 && n < |name| && name[|name| - 1 - n] == '.' then
      name[..|name| - 1 - n]
    else
      name
  }

  /** The name offered for the download: the final extension, if any, replaced by ".doc". */
  function DownloadName(fileName: string): (r: string)
    ensures IsSuffix(".doc", r)
  {
    StripFinalExtension(fileName) + ".doc"
  }

  /** Only the last extension is replaced. */
  lemma ReplacesFinalExtension(base: string, ext: string)
    requires |ext| > 0 && '.' !in ext && '/' !in ext
    ensures DownloadName(base + "." + ext) == base + ".doc"
  {
    var s := base + "." + ext;
    assert ExtensionAt(s, |base|) by {
      forall j | |base| < j < |s|
        ensures s[j] != '/' && s[j] != '.'
      {
        assert s[j] == ext[j - |base| - 1];
      }
    }
    assert s[..|base|] == base;
  }

  /** A name without a dot keeps all of itself. */
  lemma NoDotKeepsName(name: string)
    requires '.' !in name
    ensures DownloadName(name) == name + ".doc"
  {
  }

  /** A trailing dot is not an extension and stays in the name. */
  lemma TrailingDotKept(name: string)
    requires |name| > 0 && name[|name| - 1] == '.'
    ensures DownloadName(name) == name + ".doc"
  {
  }

  lemma DownloadNameExamples()
    ensures DownloadName("a.b.pdf") == "a.b.doc"
    ensures DownloadName("file.") == "file..doc"
    ensures DownloadName("notes") == "notes.doc"
  {
    ReplacesFinalExtension("a.b", "pdf");
    assert "a.b" + "." + "pdf" == "a.b.pdf";
    TrailingDotKept("file.");
    NoDotKeepsName("notes");
  }

  /** `handleDownload`: without a result nothing happens; otherwise the blob is
      downloaded under the derived name. */
  function HandleDownload(result: Option<ResultData>): (d: Option<Download>)
    ensures d.None? <==> result.None?
    ensures d.Some? ==> d.value.blob == result.value.blob
    ensures d.Some? ==> d.value.name == DownloadName(result.value.fileName)
  {
    match result
    case None => None
    case Some(r) => Some(Download(r.blob, DownloadName(r.fileName)))
  }
}
