/** The extraction client and the document packager (services/geminiService.ts):
    the clean-up applied to the remote model's reply and the HTML shell that
    makes the extracted fragment open in a word processor. The remote call
    itself is an input: the model receives its reply, not the network. */
module GeminiService {
  import opened Wrappers
  import opened Strings

  // ---------------------------------------------------------------------------
  // Response sanitiser
  // ---------------------------------------------------------------------------

  /** A markdown code fence. */
  const Fence: string := "```"

  /** An opening markdown fence tagged as HTML. */
  const HtmlFence: string := "```html"

  /** The clean-up of the model's text: every "```html" is removed, then every
      "```", then surrounding whitespace is trimmed. */
  function Sanitize(text: string): (r: string)
    ensures !Contains(r, Fence)
    ensures IsTrimmed(r)
  {
    var noTagged := RemoveAll(text, HtmlFence);
    var noFence := RemoveAll(noTagged, Fence);
    RemoveAllFenceFree(noTagged);
    var r := Trim(noFence);
    NotContainsSlice(noFence, LeadingWhitespace(noFence), LeadingWhitespace(noFence) + |r|, Fence);
    r
  }

  /** Text that holds no "```" holds no "```html" either. */
  lemma NoHtmlFenceWithoutFence(s: string)
    requires !Contains(s, Fence)
    ensures !Contains(s, HtmlFence)
  {
    if Contains(s, HtmlFence) {
      var i :| 0 <= i <= |s| && OccursAt(s, HtmlFence, i);
      assert s[i..i + 3] == s[i..i + 7][..3];
      assert OccursAt(s, Fence, i);
    }
  }

  /** Text that is already trimmed and fence-free passes through unchanged. */
  lemma {:induction false} SanitizeClean(text: string)
    requires !Contains(text, Fence) && IsTrimmed(text)
    ensures Sanitize(text) == text
  {
    NoHtmlFenceWithoutFence(text);
    RemoveAllAbsent(text, HtmlFence);
    RemoveAllAbsent(text, Fence);
    TrimTrimmed(text);
  }

  /** Sanitising twice is the same as sanitising once. */
  lemma {:induction false} SanitizeIdempotent(text: string)
    ensures Sanitize(Sanitize(text)) == Sanitize(text)
  {
    SanitizeClean(Sanitize(text));
  }

  /** Text without fences is only trimmed: nothing of it is removed. */
  lemma {:induction false} SanitizeUnfenced(text: string)
    requires !Contains(text, Fence)
    ensures Sanitize(text) == Trim(text)
  {
    NoHtmlFenceWithoutFence(text);
    RemoveAllAbsent(text, HtmlFence);
    RemoveAllAbsent(text, Fence);
  }

  /** A reply the model wrapped in an HTML code block keeps its content: the
      two fences go and the content is trimmed. */
  lemma {:induction false} SanitizeKeepsFencedBody(body: string)
    requires !Contains(body, Fence)
    ensures Sanitize(HtmlFence + body + Fence) == Trim(body)
  {
    var s := HtmlFence + body + Fence;
    assert s[..|HtmlFence|] == HtmlFence;
    assert s[|HtmlFence|..] == body + Fence;
    assert RemoveAll(s, HtmlFence) == RemoveAll(body + Fence, HtmlFence);
    NoHtmlFenceBeforeClosingFence(body);
    RemoveAllAbsent(body + Fence, HtmlFence);
    RemoveClosingFence(body);
  }

  /** Appending a closing fence to fence-free text creates no "```html". */
  lemma NoHtmlFenceBeforeClosingFence(body: string)
    requires !Contains(body, Fence)
    ensures !Contains(body + Fence, HtmlFence)
  {
    var s := body + Fence;
    if Contains(s, HtmlFence) {
      var i :| 0 <= i <= |s| && OccursAt(s, HtmlFence, i);
      assert body[i..i + 3] == s[i..i + 7][..3];
      assert OccursAt(body, Fence, i);
    }
  }

  /** Removing every fence from fence-free text followed by a closing fence
      removes exactly that fence, even when the text ends in backticks. */
  lemma {:induction false} RemoveClosingFence(body: string)
    requires !Contains(body, Fence)
    ensures RemoveAll(body + Fence, Fence) == body
    decreases |body|
  {
    var s := body + Fence;
    if |body| < 3 && s[..3] == Fence {
      assert s[3..] == body by {
        forall k | 0 <= k < |body|
          ensures s[3..][k] == body[k]
        {
          assert s[..3][k] == '`';
        }
      }
    } else {
      if |body| >= 3 {
        assert !OccursAt(body, Fence, 0);
        assert s[..3] == body[..3];
      }
      NotContainsSlice(body, 1, |body|, Fence);
      assert body[1..|body|] == body[1..];
      RemoveClosingFence(body[1..]);
      assert s[1..] == body[1..] + Fence;
      assert [body[0]] + body[1..] == body;
    }
  }

  // ---------------------------------------------------------------------------
  // The remote call as seen by the client
  // ---------------------------------------------------------------------------

  /** What the remote model call produced: a reply whose text may be missing,
      or a thrown error whose message may be missing. */
  datatype RemoteReply = Answered(text: Option<string>) | CallFailed(message: Option<string>)

  /** The message rethrown when the caught error carries none. */
  const DefaultFailureMessage: string := "Failed to convert document"

  /** `response.text || ""`: a missing or empty text reads as the empty string. */
  function ReplyText(text: Option<string>): string {
    match text
    case Some(t) => t
    case None => ""
  }

  /** `convertToWordHtml` once the remote call has returned: the sanitised text
      of a reply, or a rethrown error carrying the original message (or the
      default one when that message is missing or empty). */
  function ConvertToWordHtml(reply: RemoteReply): (r: Result<string, string>)
    ensures r.Success? <==> reply.Answered?
    ensures r.Success? ==> !Contains(r.value, Fence) && IsTrimmed(r.value)
    ensures r.Success? ==> r.value == Sanitize(ReplyText(reply.text))
    ensures r.Failure? ==> r.error != ""
    ensures r.Failure? && reply.message.Some? && reply.message.value != "" ==> r.error == reply.message.value
    ensures r.Failure? && (reply.message.None? || reply.message.value == "") ==> r.error == DefaultFailureMessage
  {
    match reply
    case Answered(text) => Success(Sanitize(ReplyText(text)))
    case CallFailed(message) =>
      Failure(if message.Some? && message.value != "" then message.value else DefaultFailureMessage)
  }

  /** A missing, empty or whitespace-only reply yields the empty document body,
      not an error. */
  lemma EmptyReplyIsEmptyBody(text: Option<string>)
    requires text.None? || AllWhitespace(text.value)
    ensures ConvertToWordHtml(Answered(text)) == Success("")
  {
    var t := ReplyText(text);
    if text.Some? {
      assert forall k :: 0 <= k < |t| ==> IsJsWhitespace(t[k]);
      RemoveAllWhitespace(t, HtmlFence);
      RemoveAllWhitespace(RemoveAll(t, HtmlFence), Fence);
    }
  }

  /** Removing a pattern from whitespace-only text leaves whitespace-only text. */
  lemma {:induction false} RemoveAllWhitespace(s: string, p: string)
    requires |p| > 0 && AllWhitespace(s)
    ensures AllWhitespace(RemoveAll(s, p))
    decreases |s|
  {
    if |s| >= |p| {
      if s[..|p|] == p {
        RemoveAllWhitespace(s[|p|..], p);
      } else {
        RemoveAllWhitespace(s[1..], p);
      }
    }
  }

  // ---------------------------------------------------------------------------
  // Word packager
  // ---------------------------------------------------------------------------

  /** The document shell up to and excluding the `<body` tag: Office XML
      namespaces, a UTF-8 charset declaration, the title and the style block. */
  const DocumentHead: string := HeadOpening + MetaCharset + HeadRest

  const HeadOpening: string :=
    "\n    <html xmlns:o='urn:schemas-microsoft-com:office:office' xmlns:w='urn:schemas-microsoft-com:office:word' xmlns='http://www.w3.org/TR/REC-html40'>"
    + "\n    <head>"
    + "\n      "

  const HeadRest: string :=
    "\n      <title>Converted Document</title>"
    + "\n      <style>"
    + "\n        body { font-family: 'Arial', sans-serif; line-height: 1.5; }"
    + "\n        table { border-collapse: collapse; width: 100%; margin-bottom: 1rem; }"
    + "\n        td, th { border: 1px solid #000; padding: 5px; }"
    + "\n      </style>"
    + "\n    </head>"
    + "\n    "

  const MetaCharset: string := "<meta charset=\"utf-8\">"

  /** The opening of the body tag, up to where the direction attribute goes. */
  const BodyTagStart: string := "<body style=\"tab-interval:36.0pt\" "

  const RtlAttribute: string := "dir=\"rtl\""

  /** The conditional comment telling Word to open the document in Print view. */
  const PrintViewComment: string :=
    "<!--[if gte mso 9]><xml><w:WordDocument><w:View>Print</w:View></w:WordDocument></xml><![endif]-->"

  /** Everything after the content. */
  const DocumentTail: string := "\n    </body>\n    </html>\n  "

  /** The opening body tag: it carries the right-to-left attribute exactly when asked to. */
  function BodyTag(isRTL: bool): string {
    BodyTagStart + (if isRTL then RtlAttribute else "") + ">"
  }

  /** Everything before the content; it depends on the direction flag only. */
  function DocumentPrefix(isRTL: bool): string {
    DocumentHead + BodyTag(isRTL) + "\n      " + PrintViewComment + "\n      "
  }

  /** `wrapHtmlForWord`: the content verbatim between a prefix that depends on
      the direction flag only and a fixed suffix. */
  function WrapHtmlForWord(htmlContent: string, isRTL: bool): string {
    DocumentPrefix(isRTL) + htmlContent + DocumentTail
  }

  /** Packaging loses nothing: the content and the direction flag can be read
      back from every packaged document. */
  lemma UnwrapWrap(htmlContent: string, isRTL: bool)
    ensures Unwrap(WrapHtmlForWord(htmlContent, isRTL)) == Some(Packaged(htmlContent, isRTL))
  {
    Framed(DocumentPrefix(isRTL), htmlContent, DocumentTail);
    PrefixesDiffer(htmlContent);
  }

  /** Different contents or directions never package to the same document. */
  lemma WrapInjective(h1: string, rtl1: bool, h2: string, rtl2: bool)
    requires WrapHtmlForWord(h1, rtl1) == WrapHtmlForWord(h2, rtl2)
    ensures h1 == h2 && rtl1 == rtl2
  {
    UnwrapWrap(h1, rtl1);
    UnwrapWrap(h2, rtl2);
  }

  /** A packaged document taken apart: the content and the direction flag. */
  datatype Packaged = Packaged(htmlContent: string, isRTL: bool)

  /** Reads a document back into its content and direction, if it has the
      packager's shape. */
  function Unwrap(doc: string): Option<Packaged> {
    if IsPrefix(DocumentPrefix(true), doc) && |doc| >= |DocumentPrefix(true)| + |DocumentTail|
       && IsSuffix(DocumentTail, doc) then
      Some(Packaged(doc[|DocumentPrefix(true)|..|doc| - |DocumentTail|], true))
    else if IsPrefix(DocumentPrefix(false), doc) && |doc| >= |DocumentPrefix(false)| + |DocumentTail|
       && IsSuffix(DocumentTail, doc) then
      Some(Packaged(doc[|DocumentPrefix(false)|..|doc| - |DocumentTail|], false))
    else None
  }

  /** The three parts of a concatenation can be read back from it. */
  lemma Framed(p: string, h: string, t: string)
    ensures IsPrefix(p, p + h + t) && IsSuffix(t, p + h + t)
    ensures (p + h + t)[|p|..|p + h + t| - |t|] == h
  {
  }

  /** A left-to-right document never starts with the right-to-left prefix: the
      two differ right after the body tag's style attribute. */
  lemma PrefixesDiffer(htmlContent: string)
    ensures !IsPrefix(DocumentPrefix(true), DocumentPrefix(false) + htmlContent + DocumentTail)
  {
    var k := |DocumentHead| + |BodyTagStart|;
    var ltr := DocumentPrefix(false) + htmlContent + DocumentTail;
    assert DocumentPrefix(true)[k] == 'd';
    assert ltr[k] == '>';
  }

  /** The middle part of a concatenation occurs where the first part ends. */
  lemma OccursBetween(a: string, b: string, c: string)
    ensures OccursAt(a + b + c, b, |a|)
  {
    assert (a + b + c)[|a|..|a| + |b|] == b;
  }

  /** Whatever the inputs, the document declares UTF-8 and asks Word for Print view. */
  lemma PackagedDeclarations(htmlContent: string, isRTL: bool)
    ensures Contains(WrapHtmlForWord(htmlContent, isRTL), MetaCharset)
    ensures Contains(WrapHtmlForWord(htmlContent, isRTL), PrintViewComment)
  {
    var doc := WrapHtmlForWord(htmlContent, isRTL);
    var tag := BodyTag(isRTL);
    var nl := "\n      ";
    Regroup(HeadOpening, MetaCharset, HeadRest, tag, nl, PrintViewComment, nl, htmlContent, DocumentTail);
    OccursBetween(HeadOpening, MetaCharset, HeadRest + tag + nl + PrintViewComment + nl + htmlContent + DocumentTail);
    OccursBetween(DocumentHead + tag + nl, PrintViewComment, nl + htmlContent + DocumentTail);
  }

  /** The two groupings of a packaged document used above. */
  lemma Regroup(a: string, m: string, b: string, tag: string, nl: string, pv: string, nl2: string, h: string, t: string)
    ensures (a + m + b) + tag + nl + pv + nl2 + h + t == a + m + (b + tag + nl + pv + nl2 + h + t)
    ensures (a + m + b) + tag + nl + pv + nl2 + h + t == ((a + m + b) + tag + nl) + pv + (nl2 + h + t)
  {
  }

  /** The body tag opens right after the document head. */
  lemma BodyTagAfterHead(htmlContent: string, isRTL: bool)
    ensures OccursAt(WrapHtmlForWord(htmlContent, isRTL), BodyTagStart, |DocumentHead|)
  {
    var attr := if isRTL then RtlAttribute else "";
    var nl := "\n      ";
    var rest := ">" + nl + PrintViewComment + nl + htmlContent + DocumentTail;
    RegroupBody(DocumentHead, BodyTagStart, attr, ">", nl, PrintViewComment, nl, htmlContent, DocumentTail);
    OccursBetween(DocumentHead, BodyTagStart, attr + rest);
  }

  /** The right-to-left attribute follows the body tag's style attribute
      exactly when `isRTL` holds. */
  lemma BodyDirection(htmlContent: string, isRTL: bool)
    ensures OccursAt(WrapHtmlForWord(htmlContent, isRTL), RtlAttribute, |DocumentHead| + |BodyTagStart|) <==> isRTL
  {
    var attr := if isRTL then RtlAttribute else "";
    var nl := "\n      ";
    var rest := ">" + nl + PrintViewComment + nl + htmlContent + DocumentTail;
    RegroupBody(DocumentHead, BodyTagStart, attr, ">", nl, PrintViewComment, nl, htmlContent, DocumentTail);
    if isRTL {
      OccursBetween(DocumentHead + BodyTagStart, attr, rest);
    } else {
      assert (DocumentHead + BodyTagStart) + attr + rest == (DocumentHead + BodyTagStart) + rest;
      assert rest[0] == '>';
      MismatchNotOccurs(DocumentHead + BodyTagStart, rest, RtlAttribute);
    }
  }

  /** Nothing starting with a different character occurs where `b` begins in `a + b`. */
  lemma MismatchNotOccurs(a: string, b: string, p: string)
    requires |b| > 0 && |p| > 0 && b[0] != p[0]
    ensures !OccursAt(a + b, p, |a|)
  {
  }

  /** The two groupings of a packaged document around its direction attribute. */
  lemma RegroupBody(hd: string, bs: string, x: string, gt: string, nl: string, pv: string, nl2: string, h: string, t: string)
    ensures hd + (bs + x + gt) + nl + pv + nl2 + h + t == hd + bs + (x + (gt + nl + pv + nl2 + h + t))
    ensures hd + (bs + x + gt) + nl + pv + nl2 + h + t == (hd + bs) + x + (gt + nl + pv + nl2 + h + t)
  {
  }
}
