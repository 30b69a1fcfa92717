/**
 * Properties of the ledger parser, stated over the specification in module
 * Ledger (which `Ledger.ParseTransactions` is proved to compute).
 */
module LedgerFacts {
  import opened Wrappers
  import opened Text
  import opened Ledger

  // ---------------------------------------------------------------------
  // Later rows never influence earlier ones

  /** `last_sender` on entry to row `i` depends only on the rows before `i`. */
  lemma {:induction false} SenderBeforePrefix(rows: seq<Row>, m: nat, i: nat)
    requires i <= m <= |rows|
    ensures SenderBefore(rows[..m], i) == SenderBefore(rows, i)
  {
    if i > 0 {
      assert rows[..m][i - 1] == rows[i - 1];
      SenderBeforePrefix(rows, m, i - 1);
    }
  }

  /** The transactions of the first `n` rows depend only on those rows. */
  lemma {:induction false} EmittedPrefix(rows: seq<Row>, lookup: seq<LookupRow>, m: nat, n: nat)
    requires n <= m <= |rows|
    ensures Emitted(rows[..m], lookup, n) == Emitted(rows, lookup, n)
  {
    if n > 0 {
      EmittedPrefix(rows, lookup, m, n - 1);
      SenderBeforePrefix(rows, m, n - 1);
      assert rows[..m][n - 1] == rows[n - 1];
      assert Outcome(rows[..m], lookup, n - 1) == Outcome(rows, lookup, n - 1);
    }
  }

  /** The first blank row of `prefix + [blank] + suffix` lies within `prefix + [blank]`. */
  lemma {:induction false} StopIndexAtBlank(prefix: seq<Row>, blank: Row, suffix: seq<Row>)
    requires BlankRow(blank)
    ensures StopIndex(prefix + [blank] + suffix) == StopIndex(prefix)
  {
    var rows := prefix + [blank] + suffix;
    if prefix == [] {
      assert rows[0] == blank;
    } else if BlankRow(prefix[0]) {
      assert rows[0] == prefix[0];
    } else {
      assert rows[0] == prefix[0];
      assert rows[1..] == prefix[1..] + [blank] + suffix;
      StopIndexAtBlank(prefix[1..], blank, suffix);
    }
  }

  /** Hard stop (helper.py:87-90): a blank row ends the ledger. Whatever follows it,
      blank or not, contributes nothing, and the result is that of the rows before it. */
  lemma HardStop(prefix: seq<Row>, blank: Row, suffix: seq<Row>, lookup: seq<LookupRow>)
    requires BlankRow(blank)
    ensures Transactions(prefix + [blank] + suffix, lookup) == Transactions(prefix, lookup)
    ensures Message(prefix + [blank] + suffix, lookup) == Message(prefix, lookup)
  {
    var rows := prefix + [blank] + suffix;
    var n := StopIndex(prefix);
    StopIndexAtBlank(prefix, blank, suffix);
    EmittedPrefix(rows, lookup, |prefix|, n);
    assert rows[..|prefix|] == prefix;
  }

  // ---------------------------------------------------------------------
  // How many lines

  /** The number of rows among the first `n` whose Receiver is present. */
  function ReceiverRows(rows: seq<Row>, n: nat): (c: nat)
    requires n <= |rows|
    ensures c <= n
  {
    if n == 0 then 0
    else ReceiverRows(rows, n - 1) + (if Missing(Get(rows[n - 1], ReceiverColumn)) then 0 else 1)
  }

  /** One transaction per row before the first blank row whose Receiver is present,
      whatever the lookup table and the senders: at most one per row before the stop. */
  lemma {:induction false} TransactionCount(rows: seq<Row>, lookup: seq<LookupRow>, n: nat)
    requires n <= |rows|
    ensures |Emitted(rows, lookup, n)| == ReceiverRows(rows, n)
    ensures n == StopIndex(rows) ==> |Transactions(rows, lookup)| == ReceiverRows(rows, n) <= StopIndex(rows)
  {
    if n > 0 {
      TransactionCount(rows, lookup, n - 1);
    }
  }

  /** Every transaction comes from a row before the stop whose Receiver is present,
      and carries that row's Receiver exactly as written. */
  lemma {:induction false} TransactionHasRow(rows: seq<Row>, lookup: seq<LookupRow>, n: nat, k: nat)
    requires n <= |rows| && k < |Emitted(rows, lookup, n)|
    ensures exists i :: (0 <= i < n
                         && Outcome(rows, lookup, i) == Some(Emitted(rows, lookup, n)[k])
                         && Get(rows[i], ReceiverColumn) == Some(Emitted(rows, lookup, n)[k].receiverName))
  {
    var earlier := Emitted(rows, lookup, n - 1);
    if k < |earlier| {
      TransactionHasRow(rows, lookup, n - 1, k);
      assert Emitted(rows, lookup, n)[k] == earlier[k];
    } else {
      assert Outcome(rows, lookup, n - 1) == Some(Emitted(rows, lookup, n)[k]);
    }
  }

  /** Transactions come out in row order: the transaction of row `i` sits at position
      "number of earlier rows with a Receiver". */
  lemma {:induction false} TransactionOrder(rows: seq<Row>, lookup: seq<LookupRow>, n: nat, i: nat)
    requires i < n <= |rows|
    requires !Missing(Get(rows[i], ReceiverColumn))
    ensures ReceiverRows(rows, i) < |Emitted(rows, lookup, n)|
    ensures Outcome(rows, lookup, i).Some?
    ensures Emitted(rows, lookup, n)[ReceiverRows(rows, i)] == Outcome(rows, lookup, i).value
  {
    TransactionCount(rows, lookup, n - 1);
    if i < n - 1 {
      TransactionOrder(rows, lookup, n - 1, i);
    }
  }

  /** No transaction has a blank receiver: rows without one are dropped (helper.py:107-110). */
  lemma {:induction false} ReceiverNeverBlank(rows: seq<Row>, lookup: seq<LookupRow>, n: nat)
    requires n <= |rows|
    ensures forall t | t in Emitted(rows, lookup, n) :: !Blank(t.receiverName)
  {
    if n > 0 {
      ReceiverNeverBlank(rows, lookup, n - 1);
    }
  }

  /** Every row before the stop whose Receiver is present yields a transaction. */
  lemma {:induction false} RowHasTransaction(rows: seq<Row>, lookup: seq<LookupRow>, n: nat, i: nat)
    requires i < n <= |rows|
    requires !Missing(Get(rows[i], ReceiverColumn))
    ensures Outcome(rows, lookup, i).Some?
    ensures Outcome(rows, lookup, i).value in Emitted(rows, lookup, n)
  {
    if i < n - 1 {
      RowHasTransaction(rows, lookup, n - 1, i);
    }
  }

  // ---------------------------------------------------------------------
  // The blank-row test

  /** A row is blank when every cell is None, or when every cell is a string that
      strips to "". */
  lemma BlankRowCases(row: Row)
    ensures BlankRow(row) <==>
      (forall h | h in row :: row[h].None?) || (forall h | h in row :: row[h].Some? && Blank(row[h].value))
  {
  }

  /** A row mixing an empty cell (None) with "" is not blank, since None prints as
      "None"; rows of only None, or of only whitespace, are blank. */
  lemma BlankRowExamples()
    ensures !BlankRow(map["Sender" := None, "Receiver" := Some("")])
    ensures BlankRow(map["Sender" := None, "Receiver" := None])
    ensures BlankRow(map["Sender" := Some(" "), "Receiver" := Some("")])
  {
    BlankIffAllSpace("None");
    assert !IsSpace("None"[0]);
    var mixed: Row := map["Sender" := None, "Receiver" := Some("")];
    assert mixed["Sender"] == None && mixed["Receiver"] == Some("");
    BlankIffAllSpace(" ");
    BlankIffAllSpace("");
  }

  // ---------------------------------------------------------------------
  // Carry-forward of the sender

  /** Carry-forward (helper.py:93-97): after a row with a present Sender, every
      following row that leaves the Sender empty uses that row's raw Sender, until
      the next row with a present Sender. */
  lemma {:induction false} CarryForward(rows: seq<Row>, j: nat, i: nat)
    requires j < i <= |rows|
    requires !Missing(Get(rows[j], SenderColumn))
    requires forall m :: j < m < i ==> Missing(Get(rows[m], SenderColumn))
    ensures SenderBefore(rows, i) == Get(rows[j], SenderColumn)
  {
    if i - 1 > j {
      CarryForward(rows, j, i - 1);
    }
  }

  /** Before the first row with a present Sender there is no sender at all
      (`last_sender` is still None, helper.py:85). */
  lemma {:induction false} NoSenderYet(rows: seq<Row>, i: nat)
    requires i <= |rows|
    requires forall m :: 0 <= m < i ==> Missing(Get(rows[m], SenderColumn))
    ensures SenderBefore(rows, i) == None
  {
    if i > 0 {
      NoSenderYet(rows, i - 1);
    }
  }

  /** `last_sender` keeps the raw Sender of an earlier row, never the tag it was
      rewritten to. */
  lemma {:induction false} SenderIsRaw(rows: seq<Row>, i: nat)
    requires i <= |rows|
    requires SenderBefore(rows, i).Some?
    ensures exists j :: 0 <= j < i && SenderBefore(rows, i) == Get(rows[j], SenderColumn)
  {
    if Missing(Get(rows[i - 1], SenderColumn)) {
      SenderIsRaw(rows, i - 1);
    }
  }

  /** A row without a Receiver emits nothing, yet its Sender is carried to the next row. */
  lemma DroppedRowStillCarries(rows: seq<Row>, lookup: seq<LookupRow>, j: nat)
    requires j + 1 < |rows|
    requires !Missing(Get(rows[j], SenderColumn)) && Missing(Get(rows[j], ReceiverColumn))
    requires Missing(Get(rows[j + 1], SenderColumn)) && !Missing(Get(rows[j + 1], ReceiverColumn))
    ensures Outcome(rows, lookup, j) == None
    ensures Outcome(rows, lookup, j + 1).Some?
    ensures Outcome(rows, lookup, j + 1).value.senderName == Display(Get(rows[j], SenderColumn), lookup)
  {
  }

  /** With no sender yet, nothing is looked up: the transaction's sender is None,
      whatever the lookup table, and the line begins "None owes". */
  lemma NoSenderNoLookup(rows: seq<Row>, lookup: seq<LookupRow>, i: nat)
    requires i < |rows|
    requires forall m :: 0 <= m <= i ==> Missing(Get(rows[m], SenderColumn))
    requires !Missing(Get(rows[i], ReceiverColumn))
    ensures Outcome(rows, lookup, i).Some? && Outcome(rows, lookup, i).value.senderName == None
    ensures RenderLine(Outcome(rows, lookup, i).value)[..9] == "None owes"
  {
    NoSenderYet(rows, i);
  }

  // ---------------------------------------------------------------------
  // The alias rewrite

  /** The tag comes from the first matching lookup row and only from it: when that
      row's tag is missing or blank the sender is not rewritten, even if a later
      row also matches and has a tag. */
  lemma TagOfFirstMatch(lookup: seq<LookupRow>, name: string, k: nat)
    requires k < |lookup| && HandleMatches(lookup[k], name)
    requires forall j :: 0 <= j < k ==> !HandleMatches(lookup[j], name)
    ensures Missing(LookupCell(lookup[k], 2)) ==> Tag(lookup, name) == None && Alias(lookup, name) == name
    ensures !Missing(LookupCell(lookup[k], 2)) ==>
      Alias(lookup, name) == "@" + LookupCell(lookup[k], 2).value
  {
  }

  /** With no matching lookup row the sender passes through unchanged: no "@",
      no trimming. */
  lemma NoMatchKeepsSender(lookup: seq<LookupRow>, name: string)
    requires forall j :: 0 <= j < |lookup| ==> !HandleMatches(lookup[j], name)
    ensures Tag(lookup, name) == None && Alias(lookup, name) == name
  {
  }

  /** The lookup compares handles ignoring case and surrounding whitespace: two
      senders that agree after strip-and-lower find the same row and the same tag. */
  lemma TagIgnoresCaseAndSpace(lookup: seq<LookupRow>, a: string, b: string)
    requires Lower(Strip(a)) == Lower(Strip(b))
    ensures FirstMatch(lookup, a) == FirstMatch(lookup, b)
    ensures Tag(lookup, a) == Tag(lookup, b)
  {
  }

  // ---------------------------------------------------------------------
  // The "N/A" default

  /** A contact or amount reads "N/A" only when its column is absent from the frame
      (or the cell itself says "N/A"); a present column with an empty cell yields
      None, which prints as "None". */
  lemma NotAvailableOnlyWhenAbsent(rows: seq<Row>, lookup: seq<LookupRow>, i: nat, column: string)
    requires i < |rows| && Outcome(rows, lookup, i).Some?
    requires column in {SenderContactColumn, AmountColumn, ReceiverContactColumn}
    ensures var t := Outcome(rows, lookup, i).value;
      var field := if column == SenderContactColumn then t.senderContact
                   else if column == AmountColumn then t.amount else t.receiverContact;
      && (column !in rows[i] ==> field == Some(NotAvailable))
      && (column in rows[i] ==> field == rows[i][column])
      && (column in rows[i] && rows[i][column] == None ==> Str(field) == "None")
  {
  }

  // ---------------------------------------------------------------------
  // The message

  /** No line of the message is empty, so the message is "" exactly when there
      are no transactions (in particular for no rows at all). */
  lemma MessageEmptyIff(rows: seq<Row>, lookup: seq<LookupRow>)
    ensures Message(rows, lookup) == [] <==> Transactions(rows, lookup) == []
    ensures rows == [] ==> Message(rows, lookup) == []
  {
  }

  /** No field of the transaction holds a line break. */
  predicate SingleLineFields(t: Transaction) {
    '\n' !in Str(t.senderName) && '\n' !in t.receiverName
    && '\n' !in Str(t.amount) && '\n' !in Str(t.receiverContact)
  }

  lemma RenderLineSingle(t: Transaction)
    requires SingleLineFields(t)
    ensures '\n' !in RenderLine(t)
  {
  }

  /** When no field holds a line break, the message has exactly one line per
      transaction, in order, and splitting it on newlines gives the rendered lines back. */
  lemma MessageLines(rows: seq<Row>, lookup: seq<LookupRow>)
    requires Transactions(rows, lookup) != []
    requires forall t | t in Transactions(rows, lookup) :: SingleLineFields(t)
    ensures SplitLines(Message(rows, lookup)) == Lines(Transactions(rows, lookup))
    ensures |SplitLines(Message(rows, lookup))| == |Transactions(rows, lookup)|
  {
    var ts := Transactions(rows, lookup);
    forall k | 0 <= k < |ts| ensures '\n' !in Lines(ts)[k] {
      assert ts[k] in ts;
      RenderLineSingle(ts[k]);
    }
    SplitJoinLines(Lines(ts));
  }

  // ---------------------------------------------------------------------
  // Worked examples

  /** Two rows, the second leaving the Sender empty: both lines name the first sender. */
  lemma CarryForwardExample()
    ensures var rows := [map[SenderColumn := Some("A"), ReceiverColumn := Some("X")],
                         map[SenderColumn := Some(""), ReceiverColumn := Some("Y")]];
      && |Transactions(rows, [])| == 2
      && Transactions(rows, [])[0].senderName == Some("A")
      && Transactions(rows, [])[1].senderName == Some("A")
  {
    var rows := [map[SenderColumn := Some("A"), ReceiverColumn := Some("X")],
                 map[SenderColumn := Some(""), ReceiverColumn := Some("Y")]];
    assert !Blank("A") && !Blank("X") && !Blank("Y") && Blank("");
    assert Str(rows[0][SenderColumn]) == "A";
    assert Str(rows[1][ReceiverColumn]) == "Y";
    assert !BlankRow(rows[0]) && !BlankRow(rows[1]);
    assert StopIndex(rows) == 2;
    assert RawSender(rows, 0) == Some("A");
    assert SenderBefore(rows, 1) == Some("A");
    assert RawSender(rows, 1) == Some("A");
    assert Alias([], "A") == "A";
    var t0 := Outcome(rows, [], 0);
    var t1 := Outcome(rows, [], 1);
    assert t0.Some? && t0.value.senderName == Some("A");
    assert t1.Some? && t1.value.senderName == Some("A");
    assert Emitted(rows, [], 1) == [t0.value];
    assert Emitted(rows, [], 2) == [t0.value, t1.value];
  }

  const AliceRow: Row := map[SenderColumn := Some("Alice"), ReceiverColumn := Some("Bob"),
                             AmountColumn := Some("10"), ReceiverContactColumn := Some("@bobvenmo")]
  const AliceLookup: seq<LookupRow> := [[Some("alice"), Some("x"), Some("alicetag")]]
  const AliceTransaction :=
    Transaction(Some("@alicetag"), Some(NotAvailable), Some("10"), "Bob", Some("@bobvenmo"))

  lemma AliceTagged()
    ensures Alias(AliceLookup, "Alice") == "@alicetag"
  {
    assert Strip("alice") == "alice" && Strip("Alice") == "Alice";
    assert Lower("alice") == Lower("Alice");
    assert FirstMatch(AliceLookup, "Alice") == Some(0);
  }

  lemma AliceOutcome()
    ensures !BlankRow(AliceRow)
    ensures Outcome([AliceRow], AliceLookup, 0) == Some(AliceTransaction)
  {
    var rows := [AliceRow];
    assert !Blank("Alice") && !Blank("Bob");
    assert Str(AliceRow[SenderColumn]) == "Alice";
    assert RawSender(rows, 0) == Some("Alice");
    AliceTagged();
    assert Get(AliceRow, ReceiverColumn) == Some("Bob");
    assert SenderContactColumn !in AliceRow;
  }

  /** One complete row whose sender has a tag in the lookup table, where the handle
      differs in case. The "Sender Venmo" column is absent, so its field is "N/A". */
  lemma EndToEndExample()
    ensures Transactions([AliceRow], AliceLookup) == [AliceTransaction]
    ensures AliceTransaction.senderContact == Some(NotAvailable)
    ensures Message([AliceRow], AliceLookup) == "@alicetag owes Bob $10 (Payment Info: @bobvenmo)."
  {
    AliceOutcome();
    assert Lines([AliceTransaction]) == [RenderLine(AliceTransaction)];
    AliceLine();
  }

  lemma AliceLine()
    ensures RenderLine(AliceTransaction) == "@alicetag owes Bob $10 (Payment Info: @bobvenmo)."
  {
    var head := "@alicetag" + " owes " + "Bob";
    assert head == "@alicetag owes Bob";
    var middle := head + " $" + "10";
    assert middle == "@alicetag owes Bob $10";
    var tail := middle + " (Payment Info: " + "@bobvenmo";
    assert tail == "@alicetag owes Bob $10 (Payment Info: @bobvenmo";
    assert tail + ")." == "@alicetag owes Bob $10 (Payment Info: @bobvenmo).";
  }

  /** A handle written " alice " matches the sender "Alice". */
  lemma HandleMatchExample()
    ensures HandleMatches([Some(" alice "), None, Some("t")], "Alice")
    ensures Alias([[Some(" alice "), None, Some("t")]], "Alice") == "@t"
    ensures Alias([[Some(" alice "), None, Some(" ")]], "Alice") == "Alice"
  {
    assert Strip(" alice ") == "alice";
    assert Lower("alice") == Lower("Alice");
    assert Blank(" ") && !Blank("t");
  }
}
