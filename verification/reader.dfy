/**
 The cursor of `MailReader` (`has_next`, `get_next`, `get_item`) and the
 drain loop of the script's entry point. The cursor is a value: each
 operation that mutates `self` in the program returns the next state here.
 */
module Reader {
  import opened MailTypes
  import opened MessageParser

  /** The state of a `MailReader`: the fetched items, their count and the
      0-based position. */
  datatype Cursor = Cursor(items: seq<RawMessage>, count: nat, position: nat)

  /** What `open_connection` leaves behind: `count == len(items)`. */
  predicate Valid(r: Cursor) {
    r.count == |r.items|
  }

  /** The state after the fetch pass: every item, position 0. */
  function Open(fetched: seq<RawMessage>): (r: Cursor)
    ensures Valid(r) && r.items == fetched && r.position == 0
  {
    Cursor(fetched, |fetched|, 0)
  }

  /** `has_next`: `count is not 0 and position < count`. On a valid reader
      it holds exactly when `items[position]` exists. */
  function HasNext(r: Cursor): (b: bool)
    ensures Valid(r) ==> (b <==> r.position < |r.items|)
    ensures r.count == 0 ==> !b
  {
    r.count != 0 && r.position < r.count
  }

  /** `get_next`: one step forward, with no bound check; nothing else changes. */
  function GetNext(r: Cursor): (r': Cursor)
    ensures r'.position == r.position + 1
    ensures r'.items == r.items && r'.count == r.count
    ensures Valid(r) ==> Valid(r')
  {
    r.(position := r.position + 1)
  }

  /** `get_item` for a given message parse: the parse of the item at the
      cursor, which is left where it is. Past the end, the list index raises. */
  function ItemAt(r: Cursor, parse: RawMessage -> Result<Message>): (m: Result<Message>)
    ensures r.position >= |r.items| ==> m == Err(IndexOutOfRange)
    ensures r.position < |r.items| ==> m == parse(r.items[r.position])
  {
    if r.position < |r.items| then parse(r.items[r.position]) else Err(IndexOutOfRange)
  }

  /** `get_item` with the reader's own parse, `__formate_response_message`. */
  function GetItem(r: Cursor, cfg: Config): (m: Result<Message>)
    ensures r.position >= |r.items| ==> m == Err(IndexOutOfRange)
    ensures r.position < |r.items| ==> m == ParseMessage(r.items[r.position], cfg)
  {
    ItemAt(r, raw => ParseMessage(raw, cfg))
  }

  /** While `has_next` holds, `get_item` never indexes past the end. */
  lemma GetItemInBounds(r: Cursor, cfg: Config)
    requires Valid(r) && HasNext(r)
    ensures GetItem(r, cfg) == ParseMessage(r.items[r.position], cfg)
    ensures GetItem(r, cfg) != Err(IndexOutOfRange)
  {
  }

  /** `get_next` applied n times. */
  function Advance(r: Cursor, n: nat): Cursor
    decreases n
  {
    if n == 0 then r else Advance(GetNext(r), n - 1)
  }

  lemma {:induction false} AdvancePosition(r: Cursor, n: nat)
    ensures Advance(r, n) == Cursor(r.items, r.count, r.position + n)
    decreases n
  {
    if n != 0 {
      AdvancePosition(GetNext(r), n - 1);
    }
  }

  /** From a fresh reader over n items, `has_next` holds after k < n calls
      of `get_next` and fails after exactly n: with no items it fails at once. */
  lemma AdvanceDrains(fetched: seq<RawMessage>, k: nat)
    requires k <= |fetched|
    ensures HasNext(Advance(Open(fetched), k)) <==> k < |fetched|
  {
    AdvancePosition(Open(fetched), k);
  }

  /** The outcome of the drain loop: either every item was parsed and the
      total written, or a parse raised at some item and ended the run. */
  datatype Run =
    | Completed(total: nat, messages: seq<Message>)
    | Aborted(failedAt: nat, error: ParseError, messages: seq<Message>)

  /** The loop of the entry point for a given message parse: count, parse
      and hand on each message in turn until `has_next` fails. Writing the
      log and the files is left to the consumer of `messages`. */
  method DrainItems(fetched: seq<RawMessage>, parse: RawMessage -> Result<Message>) returns (run: Run)
    ensures run.Completed? <==> forall k :: 0 <= k < |fetched| ==> parse(fetched[k]).Ok?
    ensures run.Completed? ==> run.total == |fetched| && |run.messages| == |fetched|
    ensures run.Aborted? ==> run.failedAt < |fetched| && |run.messages| == run.failedAt
    ensures run.Aborted? ==> parse(fetched[run.failedAt]) == Err(run.error)
    ensures forall k :: 0 <= k < |run.messages| ==> parse(fetched[k]) == Ok(run.messages[k])
  {
    var reader := Open(fetched);
    var counter := 0;
    var messages := [];
    while HasNext(reader)
      invariant Valid(reader) && reader.items == fetched
      invariant reader.position == counter <= |fetched|
      invariant |messages| == counter
      invariant forall k :: 0 <= k < counter ==> parse(fetched[k]) == Ok(messages[k])
      decreases |fetched| - counter
    {
      counter := counter + 1;
      var message := ItemAt(reader, parse);
      if message.Err? {
        return Aborted(counter - 1, message.error, messages);
      }
      messages := messages + [message.value];
      reader := GetNext(reader);
    }
    return Completed(counter, messages);
  }

  /** The run of the script: the drain loop with `get_item`'s parse. */
  method Drain(fetched: seq<RawMessage>, cfg: Config) returns (run: Run)
    ensures run.Completed? <==> forall k :: 0 <= k < |fetched| ==> ParseMessage(fetched[k], cfg).Ok?
    ensures run.Completed? ==> run.total == |fetched| && |run.messages| == |fetched|
    ensures run.Aborted? ==> run.failedAt < |fetched| && |run.messages| == run.failedAt
    ensures run.Aborted? ==> ParseMessage(fetched[run.failedAt], cfg) == Err(run.error)
    ensures forall k :: 0 <= k < |run.messages| ==> ParseMessage(fetched[k], cfg) == Ok(run.messages[k])
  {
    run := DrainItems(fetched, raw => ParseMessage(raw, cfg));
  }
}
