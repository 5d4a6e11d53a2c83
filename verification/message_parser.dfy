/**
 `__formate_response_message`: sender, subject, date, then the walk of the
 parts, in that order; the first step that raises ends the parse.
 */
module MessageParser {
  import opened MailTypes
  import opened Sender
  import opened Body
  import opened Walk
  import opened Attachments

  function ParseMessage(raw: RawMessage, cfg: Config): (r: Result<Message>)
    ensures r.Ok? <==>
      && ExtractSender(raw.from).Ok? && raw.subject.Some? && raw.date.Some?
      && forall i :: 0 <= i < |raw.parts| ==> PartOk(raw.parts[i], cfg)
    ensures raw.from.None? ==> r == Err(MissingFromHeader)
    ensures raw.from.Some? && ExtractSender(raw.from).Err? ==> r == Err(NoAngleAddress)
    ensures ExtractSender(raw.from).Ok? && raw.subject.None? ==> r == Err(BadSubject)
    ensures ExtractSender(raw.from).Ok? && raw.subject.Some? && raw.date.None? ==> r == Err(BadDate)
    ensures ExtractSender(raw.from).Ok? && raw.subject.Some? && raw.date.Some? && ParseContent(raw.parts, cfg).Err? ==>
              r == Err(ParseContent(raw.parts, cfg).error)
    ensures r.Err? ==> r.error != IndexOutOfRange
    ensures r.Ok? ==> exists a, b :: IsSearchResult(raw.from.value, a, b) && r.value.sender == raw.from.value[a..b]
    ensures r.Ok? ==> r.value.subject == raw.subject.value && r.value.date == raw.date.value
    ensures r.Ok? && raw.parts == [] ==> r.value.plainText == Some("") && r.value.htmlText == Some("")
    ensures r.Ok? && raw.parts != [] ==>
      Texts(r.value.plainText, r.value.htmlText) == Classify(raw.parts[|raw.parts| - 1], cfg.contentTypes).value
    ensures r.Ok? ==> r.value.attachments == Selected(raw.parts, cfg.allowedExtensions)
  {
    match ExtractSender(raw.from)
    case Err(e) => Err(e)
    case Ok(sender) =>
      match raw.subject
      case None => Err(BadSubject)
      case Some(subject) =>
        match raw.date
        case None => Err(BadDate)
        case Some(date) =>
          match ParseContent(raw.parts, cfg)
          case Err(e) => Err(e)
          case Ok(c) =>
            BodyIsLastPart(raw.parts, cfg);
            AttachmentsInWalkOrder(raw.parts, cfg);
            Ok(Message(sender, subject, date, c.plainText, c.htmlText, c.attachments))
  }

  const Accepted: seq<string> := ["text/plain", "text/html"]

  /** The walk of a mixed message with a text body and a trailing PDF. */
  lemma PdfWalk(body: string, base: string, payload: seq<int>)
    ensures
      var parts := [Part("multipart/mixed", "multipart", false, None, [], None),
                    Part("text/plain", "text", false, None, [], Some(body)),
                    Part("application/pdf", "application", true, Some(base + ".pdf"), payload, None)];
      ParseContent(parts, Config(Accepted, ["pdf"])) == Ok(Content(None, None, [Attachment(base + ".pdf", payload)]))
  {
    var cfg := Config(Accepted, ["pdf"]);
    var p0 := Part("multipart/mixed", "multipart", false, None, [], None);
    var p1 := Part("text/plain", "text", false, None, [], Some(body));
    var pdf := Part("application/pdf", "application", true, Some(base + ".pdf"), payload, None);
    var parts := [p0, p1, pdf];
    var att := Attachment(base + ".pdf", payload);
    assert "multipart/mixed" !in Accepted && "application/pdf" !in Accepted;
    Attachments.ExtensionOfName(base, "pdf");
    assert base + "." + "pdf" == base + ".pdf";
    assert Classify(p0, Accepted) == Ok(Texts(None, None));
    assert Classify(p1, Accepted) == Ok(Texts(Some(body), Some("")));
    assert Classify(pdf, Accepted) == Ok(Texts(None, None));
    assert GetAttachment(p0, cfg.allowedExtensions) == Ok(None);
    assert GetAttachment(pdf, cfg.allowedExtensions) == Ok(Some(att));
    assert [p0][..0] == [];
    assert ParseContent([p0], cfg) == Ok(Content(None, None, []));
    assert [p0, p1][..1] == [p0];
    assert ParseContent([p0, p1], cfg) == Ok(Content(Some(body), Some(""), []));
    assert parts[..2] == [p0, p1];
    assert [] + [att] == [att];
    assert ParseContent(parts, cfg) == Ok(Content(None, None, [att]));
  }

  /** A mixed message from `name <addr>` with a text body and a trailing PDF
      attachment, read with "pdf" allowed: the PDF is kept, and since the
      last walked part is the attachment, whose type is not accepted, both
      body texts are None. */
  lemma PdfMessage(name: string, addr: string, subject: string, date: DateTime,
                   body: string, base: string, payload: seq<int>)
    requires '<' !in name && '\n' !in addr
    ensures
      var parts := [Part("multipart/mixed", "multipart", false, None, [], None),
                    Part("text/plain", "text", false, None, [], Some(body)),
                    Part("application/pdf", "application", true, Some(base + ".pdf"), payload, None)];
      var raw := RawMessage(Some(name + "<" + addr + ">"), Some(subject), Some(date), parts);
      ParseMessage(raw, Config(Accepted, ["pdf"]))
        == Ok(Message(addr, subject, date, None, None, [Attachment(base + ".pdf", payload)]))
  {
    PdfWalk(body, base, payload);
    Sender.DisplayNameForm(name, addr);
  }

  /** The walk of a mixed message with a text body and an attachment whose
      extension is "exe". */
  lemma ExeWalk(body: string, base: string, payload: seq<int>)
    ensures
      var parts := [Part("multipart/mixed", "multipart", false, None, [], None),
                    Part("text/plain", "text", false, None, [], Some(body)),
                    Part("application/octet-stream", "application", true, Some(base + ".exe"), payload, None)];
      ParseContent(parts, Config(Accepted, ["pdf"])) == Ok(Content(None, None, []))
  {
    var cfg := Config(Accepted, ["pdf"]);
    var p0 := Part("multipart/mixed", "multipart", false, None, [], None);
    var p1 := Part("text/plain", "text", false, None, [], Some(body));
    var exe := Part("application/octet-stream", "application", true, Some(base + ".exe"), payload, None);
    var parts := [p0, p1, exe];
    assert "multipart/mixed" !in Accepted;
    assert Classify(p0, Accepted) == Ok(Texts(None, None));
    assert GetAttachment(p0, cfg.allowedExtensions) == Ok(None);
    assert Classify(p1, Accepted) == Ok(Texts(Some(body), Some("")));
    assert GetAttachment(p1, cfg.allowedExtensions) == Ok(None);
    assert Classify(exe, Accepted) == Ok(Texts(None, None)) && GetAttachment(exe, cfg.allowedExtensions) == Ok(None) by {
      assert "application/octet-stream" !in Accepted;
      Attachments.ExtensionOfName(base, "exe");
      assert base + "." + "exe" == base + ".exe";
      assert "exe" !in cfg.allowedExtensions;
    }
    assert [p0][..0] == [];
    assert ParseContent([p0], cfg) == Ok(Content(None, None, []));
    assert [p0, p1][..1] == [p0];
    assert ParseContent([p0, p1], cfg) == Ok(Content(Some(body), Some(""), []));
    assert parts[..2] == [p0, p1];
    assert ParseContent(parts, cfg) == Ok(Content(None, None, []));
  }

  /** A mixed message whose ".exe" attachment is outside the allowed
      extensions parses but keeps no attachment. */
  lemma ExeMessage(name: string, addr: string, subject: string, date: DateTime,
                   body: string, base: string, payload: seq<int>)
    requires '<' !in name && '\n' !in addr
    ensures
      var parts := [Part("multipart/mixed", "multipart", false, None, [], None),
                    Part("text/plain", "text", false, None, [], Some(body)),
                    Part("application/octet-stream", "application", true, Some(base + ".exe"), payload, None)];
      var raw := RawMessage(Some(name + "<" + addr + ">"), Some(subject), Some(date), parts);
      ParseMessage(raw, Config(Accepted, ["pdf"])) == Ok(Message(addr, subject, date, None, None, []))
  {
    ExeWalk(body, base, payload);
    Sender.DisplayNameForm(name, addr);
  }
}
