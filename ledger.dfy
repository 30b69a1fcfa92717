/**
 * The ledger parser of helper.py (`parse_transactions`): it walks the rows of
 * the ledger tab, stops at the first blank row, carries the last named sender
 * down to rows that leave the sender empty, rewrites a sender to its chat tag
 * through the lookup tab, drops rows without a receiver and renders one line
 * per remaining row.
 *
 * The specification is declarative: what row `i` contributes is defined from
 * the rows before it (`SenderBefore`, `Outcome`), and `Transactions` collects
 * the contributions of the rows before the first blank one. The method
 * `ParseTransactions` is the source's single pass with its mutable
 * `last_sender`, `break` and `continue`, proved equal to that specification.
 */
module Ledger {
  import opened Wrappers
  import opened Text

  /** A cell as pandas holds it: a string, or `None` where the sheet gave nothing. */
  type Cell = Option<string>

  /** One ledger row: column header to cell. */
  type Row = map<string, Cell>

  /** One lookup row, by column position; column 0 is the payment handle, column 2 the chat tag. */
  type LookupRow = seq<Cell>

  /** The dictionary built for each kept row (helper.py:112-118). */
  datatype Transaction = Transaction(
    senderName: Cell,
    senderContact: Cell,
    amount: Cell,
    receiverName: string,
    receiverContact: Cell)

  const SenderColumn := "Sender"
  const ReceiverColumn := "Receiver"
  const SenderContactColumn := "Sender Venmo"
  const AmountColumn := "Amount"
  const ReceiverContactColumn := "Receiver Venmo"
  const NotAvailable := "N/A"

  /** Python's `str(x)` of a cell, as an f-string prints it: `None` prints as "None". */
  function Str(c: Cell): string {
    match c
    case None => "None"
    case Some(s) => s
  }

  /** `pd.isna(x) or str(x).strip() == ""`: the test for an empty Sender or Receiver. */
  predicate Missing(c: Cell) {
    c.None? || Blank(c.value)
  }

  /** `row.isnull().all() or (row.astype(str).str.strip() == "").all()`:
      every cell is None, or every cell prints as whitespace. A row that mixes
      None and "" is not blank, since None prints as "None". */
  predicate BlankRow(row: Row) {
    (forall h | h in row :: row[h].None?) || (forall h | h in row :: Blank(Str(row[h])))
  }

  /** `row.get(key)`: None when the frame has no such column. */
  function Get(row: Row, key: string): Cell {
    if key in row then row[key] else None
  }

  /** `row.get(key, default)`: the default only when the frame has no such column;
      a present column whose cell is None yields None. */
  function GetOr(row: Row, key: string, default: string): Cell {
    if key in row then row[key] else Some(default)
  }

  /** `venmo.iloc[r, k]`; the frame pads rows the sheet returned short with None. */
  function LookupCell(entry: LookupRow, k: nat): Cell {
    if k < |entry| then entry[k] else None
  }

  /** `venmo.iloc[:, 0].str.strip().str.lower() == str(sender).strip().lower()` for one
      lookup row: a None handle never matches. */
  predicate HandleMatches(entry: LookupRow, name: string) {
    match LookupCell(entry, 0)
    case None => false
    case Some(handle) => Lower(Strip(handle)) == Lower(Strip(name))
  }

  /** The position of the first lookup row whose handle matches `name`
      (`venmo_row.iloc[0]` of the filtered frame), or None when the filter is empty. */
  function FirstMatch(lookup: seq<LookupRow>, name: string): (k: Option<nat>)
    ensures k.Some? ==> k.value < |lookup| && HandleMatches(lookup[k.value], name)
    ensures k.Some? ==> forall j :: 0 <= j < k.value ==> !HandleMatches(lookup[j], name)
    ensures k.None? ==> forall j :: 0 <= j < |lookup| ==> !HandleMatches(lookup[j], name)
  {
    if lookup == [] then None
    else if HandleMatches(lookup[0], name) then Some(0)
    else match FirstMatch(lookup[1..], name)
      case None => None
      case Some(k) => Some(k + 1)
  }

  /** The chat tag a present sender is rewritten to (helper.py:100-103): the tag
      (column 2) of the first lookup row whose handle matches, provided it is
      present and not blank; None when no row matches or that row's tag is blank. */
  function Tag(lookup: seq<LookupRow>, name: string): Option<string> {
    match FirstMatch(lookup, name)
    case None => None
    case Some(k) =>
      var tag := LookupCell(lookup[k], 2);
      if Missing(tag) then None else tag
  }

  /** The alias rewrite of helper.py:104: "@" and the tag, or the sender exactly as written. */
  function Alias(lookup: seq<LookupRow>, name: string): string {
    match Tag(lookup, name)
    case None => name
    case Some(tag) => "@" + tag
  }

  /** The displayed sender: no lookup at all while there is no sender. */
  function Display(sender: Cell, lookup: seq<LookupRow>): Cell {
    match sender
    case None => None
    case Some(name) => Some(Alias(lookup, name))
  }

  /** The index of the first blank row, or `|rows|` when there is none: the loop's hard stop. */
  function StopIndex(rows: seq<Row>): (n: nat)
    ensures n <= |rows|
  {
    if rows == [] || BlankRow(rows[0]) then 0 else 1 + StopIndex(rows[1..])
  }

  /** The stop index is that of the first blank row: every row before it is non-blank,
      and the row at it, if any, is blank. */
  lemma {:induction false} StopIndexIsFirstBlank(rows: seq<Row>)
    ensures forall i :: 0 <= i < StopIndex(rows) ==> !BlankRow(rows[i])
    ensures StopIndex(rows) < |rows| ==> BlankRow(rows[StopIndex(rows)])
  {
    if rows != [] && !BlankRow(rows[0]) {
      StopIndexIsFirstBlank(rows[1..]);
      forall i | 1 <= i < StopIndex(rows) ensures !BlankRow(rows[i]) {
        assert rows[i] == rows[1..][i - 1];
      }
    }
  }

  /** The loop's view of the stop: at a row not after the stop, the row is blank
      exactly when it is the stop. */
  lemma StopAt(rows: seq<Row>, i: nat)
    requires i <= StopIndex(rows) && i < |rows|
    ensures BlankRow(rows[i]) <==> i == StopIndex(rows)
  {
    StopIndexIsFirstBlank(rows);
  }

  /** `last_sender` on entry to row `i`: the raw Sender of the latest row before `i`
      whose Sender is not missing, or None when there is none. It is never the
      tag-rewritten name. */
  function SenderBefore(rows: seq<Row>, i: nat): (s: Cell)
    requires i <= |rows|
    ensures s.None? || !Missing(s)
  {
    if i == 0 then None
    else if !Missing(Get(rows[i - 1], SenderColumn)) then Get(rows[i - 1], SenderColumn)
    else SenderBefore(rows, i - 1)
  }

  /** The sender of row `i` before the alias rewrite (helper.py:93-97). */
  function RawSender(rows: seq<Row>, i: nat): Cell
    requires i < |rows|
  {
    var own := Get(rows[i], SenderColumn);
    if Missing(own) then SenderBefore(rows, i) else own
  }

  /** What row `i` contributes when the loop reaches it: nothing when its Receiver is
      missing, otherwise its transaction. */
  function Outcome(rows: seq<Row>, lookup: seq<LookupRow>, i: nat): Option<Transaction>
    requires i < |rows|
  {
    var row := rows[i];
    var receiver := Get(row, ReceiverColumn);
    if Missing(receiver) then None
    else Some(Transaction(
      Display(RawSender(rows, i), lookup),
      GetOr(row, SenderContactColumn, NotAvailable),
      GetOr(row, AmountColumn, NotAvailable),
      receiver.value,
      GetOr(row, ReceiverContactColumn, NotAvailable)))
  }

  /** The transactions of the first `n` rows, in row order. */
  function Emitted(rows: seq<Row>, lookup: seq<LookupRow>, n: nat): (ts: seq<Transaction>)
    requires n <= |rows|
    ensures |ts| <= n
  {
    if n == 0 then []
    else
      var earlier := Emitted(rows, lookup, n - 1);
      match Outcome(rows, lookup, n - 1)
      case None => earlier
      case Some(t) => earlier + [t]
  }

  /** The transactions `parse_transactions` builds: those of the rows before the first blank row. */
  function Transactions(rows: seq<Row>, lookup: seq<LookupRow>): seq<Transaction> {
    Emitted(rows, lookup, StopIndex(rows))
  }

  /** One line of the message (helper.py:123-124). */
  function RenderLine(t: Transaction): string {
    Str(t.senderName) + " owes " + t.receiverName + " $" + Str(t.amount)
      + " (Payment Info: " + Str(t.receiverContact) + ")."
  }

  function Lines(ts: seq<Transaction>): seq<string> {
    seq(|ts|, k requires 0 <= k < |ts| => RenderLine(ts[k]))
  }

  /** The message `parse_transactions` returns. */
  function Message(rows: seq<Row>, lookup: seq<LookupRow>): string {
    JoinLines(Lines(Transactions(rows, lookup)))
  }

  /** `parse_transactions(df, venmo)`, as the source runs it: one pass over the rows
      with a mutable `last_sender`, leaving at the first blank row and skipping rows
      without a receiver, then a second pass rendering the lines. */
  method ParseTransactions(rows: seq<Row>, lookup: seq<LookupRow>) returns (message: string)
    ensures message == Message(rows, lookup)
  {
    var transactions: seq<Transaction> := [];
    var lastSender: Cell := None;
    var i := 0;
    while i < |rows|
      invariant i <= StopIndex(rows)
      invariant transactions == Emitted(rows, lookup, i)
      invariant lastSender == SenderBefore(rows, i)
    {
      var row := rows[i];
      StopAt(rows, i);
      if BlankRow(row) {
        break;
      }
      var sender := Get(row, SenderColumn);
      if Missing(sender) {
        sender := lastSender;
      } else {
        lastSender := sender;
      }
      assert lastSender == SenderBefore(rows, i + 1);
      assert sender == RawSender(rows, i);
      if sender.Some? {
        sender := Some(Alias(lookup, sender.value));
      }
      assert sender == Display(RawSender(rows, i), lookup);
      var receiver := Get(row, ReceiverColumn);
      if Missing(receiver) {
        assert Outcome(rows, lookup, i).None?;
        i := i + 1;
        continue;
      }
      var t := Transaction(
        sender,
        GetOr(row, SenderContactColumn, NotAvailable),
        GetOr(row, AmountColumn, NotAvailable),
        receiver.value,
        GetOr(row, ReceiverContactColumn, NotAvailable));
      assert Outcome(rows, lookup, i) == Some(t);
      transactions := transactions + [t];
      i := i + 1;
    }
    assert transactions == Transactions(rows, lookup);

    message := RenderMessage(transactions);
  }

  /** The second half of `parse_transactions`: one rendered line per transaction,
      in order, joined by newlines. */
  method RenderMessage(transactions: seq<Transaction>) returns (message: string)
    ensures message == JoinLines(Lines(transactions))
  {
    var messageLines: seq<string> := [];
    for k := 0 to |transactions|
      invariant |messageLines| == k
      invariant forall j :: 0 <= j < k ==> messageLines[j] == RenderLine(transactions[j])
    {
      messageLines := messageLines + [RenderLine(transactions[k])];
    }
    assert messageLines == Lines(transactions);
    message := JoinLines(messageLines);
  }
}
