/**
 Attachment selection of `__get_attachment`: the extension test and the
 per-part filter that decides whether a walked part becomes an Attachment.
 */
module Attachments {
  import opened MailTypes

  /** `filename.split('.')[-1]`: the text after the last '.', or the whole
      name when it has no '.'. */
  function Extension(f: string): (e: string)
    ensures |e| <= |f| && e == f[|f| - |e|..]
    ensures '.' !in e
    ensures |e| < |f| ==> f[|f| - |e| - 1] == '.'
    ensures '.' !in f ==> e == f
  {
    if f == [] then []
    else if f[|f| - 1] == '.' then []
    else Extension(f[..|f| - 1]) + [f[|f| - 1]]
  }

  /** The extension of `base.ext` is `ext`, whatever dots `base` holds. */
  lemma {:induction false} ExtensionOfName(base: string, ext: string)
    requires '.' !in ext
    ensures Extension(base + "." + ext) == ext
    decreases |ext|
  {
    var f := base + "." + ext;
    if ext != [] {
      var init := ext[..|ext| - 1];
      assert f[..|f| - 1] == base + "." + init;
      assert f[|f| - 1] == ext[|ext| - 1];
      ExtensionOfName(base, init);
      assert ext == init + [ext[|ext| - 1]];
    }
  }

  /** The conditions under which a walked part is kept as an attachment. */
  predicate Qualifies(p: Part, allowedExtensions: seq<string>) {
    && p.mainType != "multipart"
    && p.hasDisposition
    && p.filename.Some?
    && |p.filename.value| > 0
    && Extension(p.filename.value) in allowedExtensions
  }

  /** `__get_attachment` as written. A part that passes the first test (not
      multipart, disposition present) has its filename decoded before it is
      looked at; when `get_filename()` is None that decoding raises. */
  function GetAttachment(p: Part, allowedExtensions: seq<string>): (r: Result<Option<Attachment>>)
    ensures r.Err? <==> p.mainType != "multipart" && p.hasDisposition && p.filename.None?
    ensures r.Err? ==> r.error == MissingFilename
    ensures (r.Ok? && r.value.Some?) <==> Qualifies(p, allowedExtensions)
    ensures r.Ok? && r.value.Some? ==> r.value.value == Attachment(p.filename.value, p.payload)
  {
    if p.mainType != "multipart" && p.hasDisposition then
      match p.filename
      case None => Err(MissingFilename)
      case Some(f) =>
        if |f| > 0 && Extension(f) in allowedExtensions then Ok(Some(Attachment(f, p.payload)))
        else Ok(None)
    else Ok(None)
  }

  /** The filter as it is evidently meant: a part without a filename is
      dropped like any other non-qualifying part. */
  function GetAttachmentIntended(p: Part, allowedExtensions: seq<string>): (r: Option<Attachment>)
    ensures r.Some? <==> Qualifies(p, allowedExtensions)
    ensures r.Some? ==> r.value == Attachment(p.filename.value, p.payload)
  {
    if Qualifies(p, allowedExtensions) then Some(Attachment(p.filename.value, p.payload)) else None
  }

  /** The attachments one part contributes: none or exactly one. */
  function Extracted(p: Part, allowedExtensions: seq<string>): (r: seq<Attachment>)
    ensures |r| <= 1
    ensures |r| == 1 <==> Qualifies(p, allowedExtensions)
    ensures |r| == 1 ==> r[0] == Attachment(p.filename.value, p.payload)
  {
    match GetAttachmentIntended(p, allowedExtensions)
    case None => []
    case Some(a) => [a]
  }

  /** Wherever the code as written does not raise, it agrees with the
      intended filter. */
  lemma GetAttachmentAgrees(p: Part, allowedExtensions: seq<string>)
    requires GetAttachment(p, allowedExtensions).Ok?
    ensures GetAttachment(p, allowedExtensions).value == GetAttachmentIntended(p, allowedExtensions)
  {
  }

  /** An inline text part without a filename aborts the code as written,
      while the intended filter simply drops it. */
  lemma InlinePartWithoutFilename()
    ensures GetAttachment(Part("text/plain", "text", true, None, [], Some("hi")), ["pdf"]) == Err(MissingFilename)
    ensures GetAttachmentIntended(Part("text/plain", "text", true, None, [], Some("hi")), ["pdf"]) == None
  {
  }
}
