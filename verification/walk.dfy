/**
 The fold of `__parse_content` over `message.walk()`.

 As written, every walked part overwrites both body texts with its own
 classification, so the texts of the result are those of the LAST part,
 while the attachments accumulate in walk order. `ParseContentIntended`
 is the evidently intended fold: the last ACCEPTED part of each text type
 wins, and parts of other types leave the texts alone.
 */
module Walk {
  import opened MailTypes
  import opened Body
  import opened Attachments

  datatype Content = Content(plainText: Option<string>, htmlText: Option<string>, attachments: seq<Attachment>)

  /** The values the fold starts from: `'', '', []`. */
  const Initial: Content := Content(Some(""), Some(""), [])

  /** A part passes both per-part steps without raising. */
  predicate PartOk(p: Part, cfg: Config) {
    Classify(p, cfg.contentTypes).Ok? && GetAttachment(p, cfg.allowedExtensions).Ok?
  }

  /** The exception a failing part raises; classification runs first. */
  function PartError(p: Part, cfg: Config): ParseError
    requires !PartOk(p, cfg)
  {
    if Classify(p, cfg.contentTypes).Err? then Classify(p, cfg.contentTypes).error
    else GetAttachment(p, cfg.allowedExtensions).error
  }

  /** Reference definition: the attachments of a part sequence, in walk order,
      one per qualifying part. */
  function Selected(parts: seq<Part>, allowedExtensions: seq<string>): seq<Attachment>
  {
    if parts == [] then []
    else Extracted(parts[0], allowedExtensions) + Selected(parts[1..], allowedExtensions)
  }

  /** `__parse_content` as written: the state after walking every part. */
  function ParseContent(parts: seq<Part>, cfg: Config): (r: Result<Content>)
    ensures r.Ok? <==> forall i :: 0 <= i < |parts| ==> PartOk(parts[i], cfg)
    ensures r.Ok? ==> |r.value.attachments| <= |parts|
    ensures r.Err? ==> r.error == UndecodableText || r.error == MissingFilename
    decreases |parts|
  {
    if parts == [] then Ok(Initial)
    else
      var last := parts[|parts| - 1];
      match ParseContent(parts[..|parts| - 1], cfg)
      case Err(e) => Err(e)
      case Ok(acc) =>
        match Classify(last, cfg.contentTypes)
        case Err(e) => Err(e)
        case Ok(t) =>
          match GetAttachment(last, cfg.allowedExtensions)
          case Err(e) => Err(e)
          case Ok(a) =>
            var added := if a.Some? then [a.value] else [];
            Ok(Content(t.plain, t.html, acc.attachments + added))
  }

  /** The body texts come from the last walked part alone. */
  lemma BodyIsLastPart(parts: seq<Part>, cfg: Config)
    requires ParseContent(parts, cfg).Ok?
    ensures parts == [] ==> ParseContent(parts, cfg) == Ok(Initial)
    ensures parts != [] ==>
      var c := ParseContent(parts, cfg).value;
      Texts(c.plainText, c.htmlText) == Classify(parts[|parts| - 1], cfg.contentTypes).value
  {
  }

  /** Hence two walks that end in the same part give the same body texts,
      whatever came before. */
  lemma EarlierPartsIrrelevant(parts: seq<Part>, parts': seq<Part>, cfg: Config)
    requires parts != [] && parts' != []
    requires parts[|parts| - 1] == parts'[|parts'| - 1]
    requires ParseContent(parts, cfg).Ok? && ParseContent(parts', cfg).Ok?
    ensures ParseContent(parts, cfg).value.plainText == ParseContent(parts', cfg).value.plainText
    ensures ParseContent(parts, cfg).value.htmlText == ParseContent(parts', cfg).value.htmlText
  {
  }

  lemma {:induction false} SelectedSnoc(parts: seq<Part>, p: Part, allowedExtensions: seq<string>)
    ensures Selected(parts + [p], allowedExtensions) == Selected(parts, allowedExtensions) + Extracted(p, allowedExtensions)
    decreases |parts|
  {
    if parts == [] {
      assert [p][1..] == [];
    } else {
      assert (parts + [p])[1..] == parts[1..] + [p];
      SelectedSnoc(parts[1..], p, allowedExtensions);
    }
  }

  /** `attachments` holds exactly the qualifying parts' attachments, in walk order. */
  lemma {:induction false} AttachmentsInWalkOrder(parts: seq<Part>, cfg: Config)
    requires ParseContent(parts, cfg).Ok?
    ensures ParseContent(parts, cfg).value.attachments == Selected(parts, cfg.allowedExtensions)
    decreases |parts|
  {
    if parts != [] {
      var init, last := parts[..|parts| - 1], parts[|parts| - 1];
      assert parts == init + [last];
      AttachmentsInWalkOrder(init, cfg);
      GetAttachmentAgrees(last, cfg.allowedExtensions);
      SelectedSnoc(init, last, cfg.allowedExtensions);
    }
  }

  /** A failing walk reports the exception of its first failing part. */
  lemma {:induction false} FirstFailingPart(parts: seq<Part>, cfg: Config) returns (i: nat)
    requires ParseContent(parts, cfg).Err?
    ensures i < |parts| && !PartOk(parts[i], cfg)
    ensures forall j :: 0 <= j < i ==> PartOk(parts[j], cfg)
    ensures ParseContent(parts, cfg).error == PartError(parts[i], cfg)
    decreases |parts|
  {
    var init, last := parts[..|parts| - 1], parts[|parts| - 1];
    if ParseContent(init, cfg).Err? {
      i := FirstFailingPart(init, cfg);
      assert parts[i] == init[i];
      assert forall j :: 0 <= j < i ==> parts[j] == init[j];
    } else {
      i := |parts| - 1;
      assert forall j :: 0 <= j < i ==> parts[j] == init[j];
    }
  }

  /** One step of the intended fold. */
  function IntendedStep(acc: Content, p: Part, cfg: Config): (r: Result<Content>)
    ensures r.Err? <==> IsTextPart(p, cfg.contentTypes) && p.text.None?
    ensures r.Ok? ==> r.value.attachments == acc.attachments + Extracted(p, cfg.allowedExtensions)
  {
    var attachments := acc.attachments + Extracted(p, cfg.allowedExtensions);
    if IsTextPart(p, cfg.contentTypes) then
      match p.text
      case None => Err(UndecodableText)
      case Some(t) =>
        if p.contentType == "text/plain" then Ok(Content(Some(t), acc.htmlText, attachments))
        else Ok(Content(acc.plainText, Some(t), attachments))
    else Ok(acc.(attachments := attachments))
  }

  /** The fold as evidently intended: last accepted match wins, and a part
      without a filename is dropped rather than raising. */
  function ParseContentIntended(parts: seq<Part>, cfg: Config): (r: Result<Content>)
    ensures r.Ok? <==> forall i :: 0 <= i < |parts| ==> !(IsTextPart(parts[i], cfg.contentTypes) && parts[i].text.None?)
    decreases |parts|
  {
    if parts == [] then Ok(Initial)
    else
      match ParseContentIntended(parts[..|parts| - 1], cfg)
      case Err(e) => Err(e)
      case Ok(acc) => IntendedStep(acc, parts[|parts| - 1], cfg)
  }

  /** v is the decoded text of the last part selected for `ctype`, or '' when
      no part is selected. */
  ghost predicate LastMatch(parts: seq<Part>, ctype: string, contentTypes: seq<string>, v: Option<string>) {
    if exists i :: 0 <= i < |parts| && Selects(parts[i], ctype, contentTypes) then
      exists i :: && 0 <= i < |parts| && Selects(parts[i], ctype, contentTypes)
                  && (forall j :: i < j < |parts| ==> !Selects(parts[j], ctype, contentTypes))
                  && v == parts[i].text
    else v == Some("")
  }

  lemma LastMatchSnoc(init: seq<Part>, p: Part, ctype: string, contentTypes: seq<string>, v: Option<string>)
    requires LastMatch(init, ctype, contentTypes, v)
    requires !Selects(p, ctype, contentTypes)
    ensures LastMatch(init + [p], ctype, contentTypes, v)
  {
    var parts := init + [p];
    assert forall j :: 0 <= j < |init| ==> parts[j] == init[j];
    if exists i :: 0 <= i < |init| && Selects(init[i], ctype, contentTypes) {
      var i :| && 0 <= i < |init| && Selects(init[i], ctype, contentTypes)
               && (forall j :: i < j < |init| ==> !Selects(init[j], ctype, contentTypes))
               && v == init[i].text;
      assert parts[i] == init[i];
    }
  }

  lemma LastMatchHere(init: seq<Part>, p: Part, ctype: string, contentTypes: seq<string>)
    requires Selects(p, ctype, contentTypes)
    ensures LastMatch(init + [p], ctype, contentTypes, p.text)
  {
    var parts := init + [p];
    assert parts[|init|] == p;
  }

  /** The intended fold picks, for each text type, the last accepted part of
      that type, and collects the same attachments as the reference. */
  lemma {:induction false} IntendedLastMatchWins(parts: seq<Part>, cfg: Config)
    requires ParseContentIntended(parts, cfg).Ok?
    ensures LastMatch(parts, "text/plain", cfg.contentTypes, ParseContentIntended(parts, cfg).value.plainText)
    ensures LastMatch(parts, "text/html", cfg.contentTypes, ParseContentIntended(parts, cfg).value.htmlText)
    ensures ParseContentIntended(parts, cfg).value.attachments == Selected(parts, cfg.allowedExtensions)
    decreases |parts|
  {
    var c := ParseContentIntended(parts, cfg).value;
    if parts != [] {
      var init, last := parts[..|parts| - 1], parts[|parts| - 1];
      assert parts == init + [last];
      IntendedLastMatchWins(init, cfg);
      var acc := ParseContentIntended(init, cfg).value;
      SelectedSnoc(init, last, cfg.allowedExtensions);
      if Selects(last, "text/plain", cfg.contentTypes) {
        LastMatchHere(init, last, "text/plain", cfg.contentTypes);
        LastMatchSnoc(init, last, "text/html", cfg.contentTypes, acc.htmlText);
      } else if Selects(last, "text/html", cfg.contentTypes) {
        LastMatchSnoc(init, last, "text/plain", cfg.contentTypes, acc.plainText);
        LastMatchHere(init, last, "text/html", cfg.contentTypes);
      } else {
        LastMatchSnoc(init, last, "text/plain", cfg.contentTypes, acc.plainText);
        LastMatchSnoc(init, last, "text/html", cfg.contentTypes, acc.htmlText);
      }
    }
  }

  /** A plain part followed by an HTML part: the code as written loses the
      plain text, the intended fold keeps both. */
  lemma PlainThenHtml()
    ensures
      var cfg := Config(["text/plain", "text/html"], []);
      var parts := [Part("text/plain", "text", false, None, [], Some("hi")),
                    Part("text/html", "text", false, None, [], Some("<p>hi</p>"))];
      && ParseContent(parts, cfg) == Ok(Content(Some(""), Some("<p>hi</p>"), []))
      && ParseContentIntended(parts, cfg) == Ok(Content(Some("hi"), Some("<p>hi</p>"), []))
  {
  }
}
