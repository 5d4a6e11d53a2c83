/**
 The records the mail reader works on: one MIME part as the message walk
 yields it, an extracted attachment, a parsed message, and the errors that
 abort parsing. What the email library computes (content type, payload
 text after the charset decode, parsed date) arrives here as a field that has
 already been computed. So do the subject and the filename as the program's
 own `__decode_message_part` returns them: only the first chunk of
 `decode_header`, decoded when it names a charset and otherwise the raw
 header; that helper is not part of this model.
 */
module MailTypes {

  /** Python's `None` alongside a present value. */
  datatype Option<+T> = None | Some(value: T)

  /** Why parsing one message stopped. In the program each of these is an
      exception that propagates out of the whole run. */
  datatype ParseError =
    | MissingFromHeader   // message['From'] is None, so re.search raises
    | NoAngleAddress      // the sender regex found no match; .group(0) on None raises
    | BadSubject          // the Subject header is missing or cannot be decoded
    | BadDate             // the Date header is missing or cannot be parsed
    | UndecodableText     // a selected body part's payload fails to decode with its charset
    | MissingFilename     // a disposition part's filename is absent (decode_header(None)
                          // raises) or fails to decode in __decode_message_part
    | IndexOutOfRange     // items[position] past the end of the fetched items

  datatype Result<+T> = Ok(value: T) | Err(error: ParseError)

  /** One part of `message.walk()`.
      - contentType: `get_content_type()`, e.g. "text/plain"
      - mainType: `get_content_maintype()`, e.g. "multipart"
      - hasDisposition: whether a Content-Disposition header is present
      - filename: `get_filename()` passed through `__decode_message_part`
        (first chunk only); None when absent or when that decoding raises
        (an undecodable charset payload, an unknown charset, a malformed
        encoded word), since either way the filter raises
      - payload: `get_payload(decode=True)`, kept opaque
      - text: the payload decoded with the part's declared charset, None when
        that decoding fails (including a part that declares no charset) */
  datatype Part = Part(
    contentType: string,
    mainType: string,
    hasDisposition: bool,
    filename: Option<string>,
    payload: seq<int>,
    text: Option<string>)

  datatype Attachment = Attachment(filename: string, content: seq<int>)

  /** The first six components of the parsed Date header. */
  datatype DateTime = DateTime(year: int, month: int, day: int, hour: int, minute: int, second: int)

  /** The message fields: the body texts are Python strings or None. */
  datatype Message = Message(
    sender: string,
    subject: string,
    date: DateTime,
    plainText: Option<string>,
    htmlText: Option<string>,
    attachments: seq<Attachment>)

  /** One fetched item after `email.message_from_bytes`: the raw From header
      as a string (None when absent), the decoded Subject, the parsed Date and
      the parts in walk order. */
  datatype RawMessage = RawMessage(
    from: Option<string>,
    subject: Option<string>,
    date: Option<DateTime>,
    parts: seq<Part>)

  /** The two lists the reader is configured with. */
  datatype Config = Config(contentTypes: seq<string>, allowedExtensions: seq<string>)
}
