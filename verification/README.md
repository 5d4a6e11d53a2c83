# MailReader model

A Dafny model of the decision logic of `MailReader.py`, a script that fetches
messages from an IMAP mailbox, turns each into a `Message` and writes a log
plus the allowed attachments. The model covers three parts.

- **The cursor.** `has_next`, `get_next` and `get_item` over the fetched
  `items`, and the drain loop of the script's entry point that counts the
  messages and writes `Total`.
- **Sender extraction.** The lookbehind/lookahead regex
  `(?<=\<)(.*)(?=\>)` is modelled exactly: `re.search` takes the leftmost
  start, the greedy `.*` takes the longest match, and `.` stops at `'\n'`.
- **The per-message walk.** This covers three steps:
  - per-part text classification (`__get_text_by_content_type`);
  - the attachment filter with its extension rule (`__get_attachment`);
  - the fold over `message.walk()` (`__parse_content`).

Module layout (one concern each):

- `MailTypes` holds the records: `Part`, `Attachment`, `Message`,
  `RawMessage` and `Config`. It also holds `Option`, `Result` and the
  `ParseError` cases, one per exception the code can raise.
- `Sender` models sender extraction.
- `Attachments` models the extension rule and the attachment filter.
- `Body` models text classification.
- `Walk` models the walk fold, as written and as evidently intended.
- `MessageParser` models `__formate_response_message`.
- `Reader` models the cursor and the drain loop.

The cursor is an immutable value. Each call that mutates `self` in Python
returns the next state here. The exceptions raised while parsing a message or
reading the cursor are `Err` cases of `Result`, so no precondition excludes
an input the code accepts. Two groups are folded into the inputs or left out
(see Left out): a filename whose header decoding raises arrives as None and
raises like an absent one, and a From header that the library returns as a
`Header` object is not modelled. Exceptions raised while writing the log or
the attachment files are not modelled either.

The code and its evident intent differ in several places. The model
follows the code in each:

- A `From` header without `<…>` raises (`NoAngleAddress`). No fallback value
  is made up.
- `get_next` has no bound check. `get_item` past the end raises
  (`IndexOutOfRange`).
- Each walked part overwrites both body texts (see Findings).
- A disposition part without a filename raises (see Findings).

## Model

| member | source | states |
|---|---|---|
| Reader.HasNext | MailReader.py:46-47 | false whenever `count` is 0; on a reader whose `count` is `len(items)` it holds exactly when `items[position]` exists |
| Reader.GetNext | MailReader.py:49-50 | the position grows by exactly one with no bound check; `items` and `count` are unchanged and the count/items agreement is kept |
| Reader.ItemAt | MailReader.py:52-55 | for any message parse, reads the item at the cursor without moving it; a cursor at or past the end raises the index error |
| Reader.GetItem | MailReader.py:52-55 | the same read with the reader's own parse of the message |
| Reader.GetItemInBounds | MailReader.py:46-55 | while `has_next` holds, `get_item` never raises the index error |
| Reader.Open | MailReader.py:62-67 | after the fetch pass the reader holds every fetched item, `count == len(items)` and position 0 |
| Reader.AdvancePosition | MailReader.py:49-50 | n calls of `get_next` move the position by exactly n and change nothing else |
| Reader.AdvanceDrains | MailReader.py:46-50 | from a fresh reader over n items, `has_next` holds after k < n calls of `get_next` and fails after exactly n; with zero items it fails at once |
| Reader.DrainItems | MailReader.py:147-161 | for any message parse, the loop runs once per item. On completion `Total` equals the number of items and the messages are the parses of the items in order. Otherwise it stops at the first item whose parse raises, having handed on exactly the earlier ones |
| Reader.Drain | MailReader.py:147-161 | the same guarantees for the script's own parse: the run completes iff every fetched message parses |
| Sender.Search | MailReader.py:70 | no result iff no slice lies between a '<' and a later '>' on one line; otherwise the result is the leftmost-starting, then longest, such slice |
| Sender.ExtractSender | MailReader.py:70 | a missing From header raises; a header with no `<…>` match raises; otherwise the sender is the regex's leftmost-longest match |
| Sender.DisplayNameForm | MailReader.py:70 | `"Name" <addr>` yields exactly `addr` for a display name without '<' and an address on one line, even when the address holds '>' |
| Sender.QuotedNameWithAngle | MailReader.py:70 | a quoted display name holding '<' (`"a<b" <x@y>`) makes the leftmost '<' start the match, so the sender is `b" <x@y`, not the address |
| Sender.SingleLine | MailReader.py:70 | on one line the sender is the text strictly between the first '<' and the last '>' |
| Attachments.Extension | MailReader.py:112 | the extension is a dot-free suffix of the filename, preceded by '.' unless it is the whole name; a name without '.' is its own extension |
| Attachments.ExtensionOfName | MailReader.py:112 | the extension of `base.ext` is `ext` whatever dots `base` contains |
| Attachments.GetAttachment | MailReader.py:109-115 | yields an attachment iff the part is not multipart, has Content-Disposition, has a non-empty filename and an allowed extension, and then carries that filename and payload; a non-multipart part with a disposition but no filename raises |
| Attachments.GetAttachmentIntended | MailReader.py:109-115 | the corrected filter: same selection rule, but a part without a filename is dropped |
| Attachments.GetAttachmentAgrees | MailReader.py:109-115 | wherever the filter as written does not raise, it agrees with the corrected filter |
| Attachments.InlinePartWithoutFilename | MailReader.py:110-111 | an inline text part with no filename makes the filter as written raise, while the corrected one drops it |
| Body.Classify | MailReader.py:97-106 | both texts are None exactly when the type is not accepted; accepted plain gives (text, ''), accepted HTML gives ('', text), other accepted types give ('', ''); it raises only on an accepted plain or HTML part whose payload does not decode |
| Body.ClassifyNonEmpty | MailReader.py:97-106 | at most one of the two texts of a part is non-empty, and a non-empty one is the decoded payload of a part of that type |
| Walk.ParseContent | MailReader.py:88-95 | the walk succeeds iff every part passes classification and the attachment filter; it yields at most one attachment per part; a failing walk raises only a text-decode or filename error |
| Walk.BodyIsLastPart | MailReader.py:88-95 | the body texts are the classification of the last walked part, or '' and '' for an empty walk |
| Walk.EarlierPartsIrrelevant | MailReader.py:90-91 | two walks ending in the same part yield the same body texts, whatever parts came before |
| Walk.AttachmentsInWalkOrder | MailReader.py:88-95 | the attachments are exactly one per qualifying part, in walk order |
| Walk.FirstFailingPart | MailReader.py:90-94 | a failing walk raises the error of its first failing part, and every earlier part passed |
| Walk.IntendedStep | MailReader.py:90-94 | a corrected step raises only on an undecodable selected text part, and adds exactly that part's qualifying attachment |
| Walk.ParseContentIntended | MailReader.py:88-95 | the corrected walk succeeds iff no selected plain or HTML part fails to decode |
| Walk.IntendedLastMatchWins | MailReader.py:88-95 | in the corrected walk each text is that of the last accepted part of its type, or '' if there is none; the attachments are the same as the reference's |
| Walk.PlainThenHtml | MailReader.py:89-91 | for a plain part followed by an HTML part, the walk as written loses the plain text, while the corrected walk keeps both |
| MessageParser.ParseMessage | MailReader.py:69-75 | a message parses iff the sender regex matches, subject and date are present and every part passes. The result holds the leftmost-longest sender, the last part's texts and the qualifying attachments in walk order. A failing parse raises the error of the first failing step: a missing From header, no `<…>` match, a missing subject, a missing date, then the walk's own error. It never raises the index error |
| MessageParser.PdfMessage | MailReader.py:69-115 | a message from `name <addr>` made of a multipart container, a plain body and a PDF attachment, read with "pdf" allowed, parses to sender `addr`, exactly that one attachment, and None for both texts, because the PDF part is walked last |
| MessageParser.ExeMessage | MailReader.py:69-115 | the same kind of message (container, plain body, attachment) with an ".exe" attachment parses to no attachment at all |

## Left out

- The IMAP session (`open_connection`, `__init_imap`, `__init_items`, `close_connection`) is network I/O. `Reader.Open` takes the fetched items as given.
- File output is disk I/O and is left out: `Attachment.save_as`, `write_message`, `save_attachments` and the log writes. This includes `strftime` formatting and joining the attachment path without sanitising it. `Reader.Drain` returns the messages it would have written.
- The `email` library calls are foreign code. This covers `message_from_bytes`, `walk`, `get_content_type`, `get_content_maintype`, `get_filename` and `get_payload`. Their results are the fields of `Part`, and a message's parts arrive as a sequence in walk order.
- Header decoding is left out by choice. `__decode_message_part` (MailReader.py:77-82) is the program's own helper around the library's `decode_header`. It keeps only the first chunk `decode_header` returns, decodes it when that chunk names a charset, and otherwise returns the raw header unchanged. So a header such as `Hello =?utf-8?q?W=C3=B6rld?=` comes back still encoded, and an encoded filename followed by plain text, such as `=?utf-8?q?r=C3=A9sum=C3=A9?=.pdf`, comes back as `résumé` without its extension. `RawMessage.subject` and `Part.filename` are the helper's output, with this first-chunk truncation already applied; None in `RawMessage.subject` stands for a missing or undecodable header. None in `Part.filename` likewise stands for an absent filename or one whose decoding raises: an undecodable payload such as `=?utf-8?q?=FF?=.pdf`, an unknown charset, or malformed base64. As written, both kinds raise at MailReader.py:111, so `MissingFilename` covers both. A charset decode of a body payload that fails is `Part.text == None`.
- Date parsing (`__datetime_from_tuple`, `email.utils.parsedate`, `datetime`) is library code. The parsed date arrives as `RawMessage.date`, with None for a missing or unparseable header.
- Attachments.GetAttachment: `is not 'multipart'` is modelled as string inequality. CPython compares identity there. The main type comes from a fresh `split` and is a different object from the literal, so in the code as run the test is always true and multipart parts that carry a disposition header also reach the filename step.
- Reader.Drain: write failures are not modelled. `write_message` and `save_attachments` (MailReader.py:154-155) can raise, for example when `save_as` opens a path whose filename holds a `/` into a missing directory, and that also ends the run. "Completes iff every fetched message parses" holds only when every write succeeds.
- A From header holding raw 8-bit bytes is not modelled. For it `message['From']` is a `Header` object, and `re.search` on it raises a TypeError that ends the run. `RawMessage.from` holds only a header that arrives as a string.
- Reader.HasNext: `count is not 0` is modelled as `count != 0`. This is the same for CPython's cached small integers.
- The class-level `items = []` is shared by every `MailReader` in the program. The model keeps items per reader, so a second fetch pass appending to a shared list is not modelled.
- Python's exception classes are collapsed into the `ParseError` cases. The program's messages are not modelled.

## Findings

| source | as written | input that shows it | evidently intended | confidence | as-written member | corrected member |
|---|---|---|---|---|---|---|
| MailReader.py:88-95 | every walked part overwrites both body texts, with (None, None) for an unaccepted type, so only the last part counts | parts [text/plain "hi", text/html "&lt;p&gt;hi&lt;/p&gt;"], both types accepted: plain text comes out '' | for each type, the last accepted part of that type wins; other parts leave the texts alone | medium, not executed | Walk.ParseContent, shown by Walk.PlainThenHtml | Walk.ParseContentIntended, proved by Walk.IntendedLastMatchWins |
| MailReader.py:110-111 | a non-multipart part with a Content-Disposition header but no filename hands None to `decode_header`, which raises and aborts the run | an inline text/plain part without a filename | such a part is dropped like any non-qualifying part | high, not executed | Attachments.GetAttachment, shown by Attachments.InlinePartWithoutFilename | Attachments.GetAttachmentIntended, related by Attachments.GetAttachmentAgrees |

`MessageParser.ParseMessage` and `Reader.Drain` use the walk as written, so
they describe what the program does. The corrected walk
`Walk.ParseContentIntended` uses the corrected filter, and its properties
are proved separately.
