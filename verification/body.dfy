/**
 Per-part text classification of `__get_text_by_content_type`.
 */
module Body {
  import opened MailTypes

  /** The pair `(plain_text, html_text)` one part yields; None is Python's None. */
  datatype Texts = Texts(plain: Option<string>, html: Option<string>)

  /** The part's content type is accepted and equals `ctype`. */
  predicate Selects(p: Part, ctype: string, contentTypes: seq<string>) {
    p.contentType in contentTypes && p.contentType == ctype
  }

  /** Accepted text/plain or text/html: the parts whose payload gets decoded. */
  predicate IsTextPart(p: Part, contentTypes: seq<string>) {
    Selects(p, "text/plain", contentTypes) || Selects(p, "text/html", contentTypes)
  }

  /** `__get_text_by_content_type`: an accepted plain part gives (text, ''),
      an accepted HTML part gives ('', text), any other accepted type gives
      ('', ''), and a type outside `content_types` gives (None, None). The
      charset decode of a selected payload can raise. */
  function Classify(p: Part, contentTypes: seq<string>): (r: Result<Texts>)
    ensures r.Err? <==> IsTextPart(p, contentTypes) && p.text.None?
    ensures r.Err? ==> r.error == UndecodableText
    ensures r.Ok? ==> (r.value.plain.None? <==> p.contentType !in contentTypes)
    ensures r.Ok? ==> (r.value.html.None? <==> p.contentType !in contentTypes)
    ensures r.Ok? && Selects(p, "text/plain", contentTypes) ==> r.value == Texts(p.text, Some(""))
    ensures r.Ok? && Selects(p, "text/html", contentTypes) ==> r.value == Texts(Some(""), p.text)
    ensures r.Ok? && p.contentType in contentTypes && !IsTextPart(p, contentTypes) ==>
              r.value == Texts(Some(""), Some(""))
  {
    var ctype := p.contentType;
    if ctype in contentTypes then
      if ctype == "text/plain" then
        match p.text
        case None => Err(UndecodableText)
        case Some(t) => Ok(Texts(Some(t), Some("")))
      else if ctype == "text/html" then
        match p.text
        case None => Err(UndecodableText)
        case Some(t) => Ok(Texts(Some(""), Some(t)))
      else Ok(Texts(Some(""), Some("")))
    else Ok(Texts(None, None))
  }

  /** At most one of the two texts a part yields can be non-empty, and a
      non-empty text is the decoded payload of a part of the matching type. */
  lemma ClassifyNonEmpty(p: Part, contentTypes: seq<string>)
    requires Classify(p, contentTypes).Ok?
    ensures var t := Classify(p, contentTypes).value;
      && (t.plain.Some? && t.plain.value != "" ==> Selects(p, "text/plain", contentTypes) && t.plain == p.text)
      && (t.html.Some? && t.html.value != "" ==> Selects(p, "text/html", contentTypes) && t.html == p.text)
      && !(t.plain.Some? && t.plain.value != "" && t.html.Some? && t.html.value != "")
  {
  }
}
