# WLSBot ledger parser, modelled in Dafny

WLSBot is a chat bot that reads a shared spreadsheet's ledger tab and posts who owes
whom. Its only real logic sits in `helper.py`:

- `parse_transactions` walks the ledger rows in order. It stops at the first blank row.
  A row that leaves `Sender` empty takes the last named sender. A sender is rewritten to
  `@tag` through a lookup table. Rows without a `Receiver` are dropped. Every kept row
  becomes one line `"{sender} owes {receiver} ${amount} (Payment Info: {receiver_contact})."`,
  and the lines are joined with newlines.
- `get_sheet_data` and `get_target_sheet_gid` find a tab by its title, ignoring case.

The project has five modules:

- `Wrappers` (wrappers.dfy): `Option` and `Result`.
- `Text` (text.dfy): Python's `strip`, `lower`, `"\n".join` and `split("\n")`, over ASCII.
- `Ledger` (ledger.dfy): the parser. A row is a map from column header to `Option<string>`,
  where `None` is a cell that pandas filled with `None`. The lookup table is a sequence of
  rows read by column position. The specification is declarative:
  - `StopIndex` is the position of the first blank row.
  - `SenderBefore(rows, i)` is the raw `Sender` of the latest earlier row that has one.
  - `Outcome(rows, lookup, i)` is what row `i` contributes.
  - `Transactions` collects those contributions, and `Message` renders them.

  `ParseTransactions` is the source's single pass, with its mutable `last_sender`,
  `break` and `continue`. It is proved to return `Message`.
- `LedgerFacts` (ledger_facts.dfy): the properties of that specification, with worked examples.
- `Sheets` (sheets.dfy): the two tab searches as methods, both proved against `FirstTab`.

Notes on behaviour, as the code has it:

- A row counts as blank when all of its cells are `None`, or when all of them strip to "".
  A row that mixes `None` and "" is not blank, because `str(None)` is "None".
- `row.get(col, "N/A")` gives "N/A" only when the column is absent. A present column with
  an empty cell gives `None`, which prints as "None".
- A row with an empty `Sender` and no earlier sender is rendered with the sender "None".
  No lookup happens for it.
- Only the first matching lookup row is consulted. If its tag is blank, the sender stays
  as written, even when a later row matches and has a tag.
- `parse_transactions` returns only the message. The list of transactions is internal.
- `get_sheet_data` checks `if not target_sheet` after its loop. A matching tab whose title
  is absent or empty is therefore reported as not found. `get_target_sheet_gid` returns
  that tab's `sheetId`.

## Model

| member | source | states |
|---|---|---|
| `Text.IsSpace` | helper.py:89 | the characters `strip` removes: ASCII 9-13 and 28-32; used through `Text.BlankIffAllSpace` |
| `Text.TrimLeft` | helper.py:94 | `lstrip`: drops leading whitespace; pinned down by `Text.TrimLeftCuts` |
| `Text.TrimRight` | helper.py:94 | `rstrip`: drops trailing whitespace; pinned down by `Text.TrimRightCuts` |
| `Text.Strip` | helper.py:94 | `strip`: `lstrip` then `rstrip`; pinned down by `Text.BlankIffAllSpace` |
| `Text.Blank` | helper.py:108 | the test `str(x).strip() == ""`; true exactly when every character is whitespace (`Text.BlankIffAllSpace`) |
| `Text.TrimLeftCuts` | helper.py:94 | `lstrip` returns a suffix; everything it cuts is whitespace; what is left does not start with whitespace |
| `Text.TrimRightCuts` | helper.py:94 | `rstrip` returns a prefix; everything it cuts is whitespace; what is left does not end with whitespace |
| `Text.BlankIffAllSpace` | helper.py:94 | `s.strip() == ""` holds exactly when every character is whitespace; otherwise the stripped text starts and ends with a non-space |
| `Text.LowerChar` | helper.py:100 | `lower` on one character: A-Z become a-z, everything else is kept (`Text.LowerAt`) |
| `Text.Lower` | helper.py:100 | `lower` keeps the length |
| `Text.LowerAt` | helper.py:100 | `lower` maps each letter A-Z to a-z and keeps every other character, position by position |
| `Text.JoinLines` | helper.py:127 | `"\n".join` of no lines is ""; otherwise the result starts with the first line |
| `Text.SplitLines` | helper.py:127 | splitting on newlines always yields at least one piece |
| `Text.SplitLinesPrefix` | helper.py:127 | splitting a newline-free line followed by a tail extends the tail's first piece |
| `Text.SplitJoinLines` | helper.py:121-127 | splitting the joined lines on newlines gives the lines back when none holds a newline, so the text has exactly one line per entry |
| `Ledger.Str` | helper.py:123-124 | `str()` of a cell: the text itself, and "None" for an empty cell (`LedgerFacts.NoSenderNoLookup`, `LedgerFacts.NotAvailableOnlyWhenAbsent`) |
| `Ledger.Missing` | helper.py:103 | `pd.isna(x) or str(x).strip() == ""`: the cell is empty or only whitespace (`Ledger.SenderBefore`, `LedgerFacts.ReceiverNeverBlank`) |
| `Ledger.BlankRow` | helper.py:89 | the stop test: every cell empty, or every cell printing as whitespace; `LedgerFacts.BlankRowCases` shows the second arm admits no empty cell |
| `Ledger.Get` | helper.py:107 | `row.get(col)`: the cell, or None when the column is absent |
| `Ledger.GetOr` | helper.py:114-117 | `row.get(col, "N/A")`: the cell, or "N/A" when the column is absent (`LedgerFacts.NotAvailableOnlyWhenAbsent`) |
| `Ledger.LookupCell` | helper.py:102 | `iloc` on a lookup row: the cell at a column position, None beyond the row's end |
| `Ledger.HandleMatches` | helper.py:100 | the lookup row's first column, stripped and lower-cased, equals the sender stripped and lower-cased; a None handle never matches (the definition's `None` case); `LedgerFacts.HandleMatchExample` shows a padded, differently cased handle matching |
| `Ledger.FirstMatch` | helper.py:100-102 | the first lookup row whose present handle equals the sender after strip-and-lower; a row with a None handle never matches; None when no row matches |
| `Ledger.Tag` | helper.py:101-103 | the third column of the first matching lookup row, unless it is empty or blank (`LedgerFacts.TagOfFirstMatch`, `LedgerFacts.TagIgnoresCaseAndSpace`) |
| `Ledger.Alias` | helper.py:99-104 | the sender becomes "@" + tag when there is a tag, and stays as written otherwise (`LedgerFacts.TagOfFirstMatch`, `LedgerFacts.NoMatchKeepsSender`) |
| `Ledger.Display` | helper.py:99-104 | no lookup for an empty sender; otherwise the alias of the sender (`LedgerFacts.NoSenderNoLookup`) |
| `Ledger.StopIndex` | helper.py:87-90 | the stop position lies within the rows |
| `Ledger.StopIndexIsFirstBlank` | helper.py:87-90 | every row before the stop is non-blank, and the row at the stop, if any, is blank |
| `Ledger.StopAt` | helper.py:89-90 | for a row at or before the stop, being blank is the same as being the stop |
| `Ledger.SenderBefore` | helper.py:85-97 | `last_sender` is None or a present, non-blank sender |
| `Ledger.RawSender` | helper.py:93-97 | the row's own Sender when present and non-blank, else `last_sender` (`LedgerFacts.CarryForward`, `LedgerFacts.SenderIsRaw`) |
| `Ledger.Outcome` | helper.py:106-118 | what one row appends: nothing when its Receiver is missing, else the transaction with the displayed sender, the three `get(.., "N/A")` fields and the Receiver as written (`LedgerFacts.RowHasTransaction`, `LedgerFacts.TransactionHasRow`) |
| `Ledger.Emitted` | helper.py:107-119 | the first `n` rows give at most `n` transactions |
| `Ledger.Transactions` | helper.py:84-119 | the list the first loop builds: the outcomes of the rows before the first blank row, in order (`LedgerFacts.TransactionCount`, `LedgerFacts.TransactionOrder`, `LedgerFacts.HardStop`) |
| `Ledger.RenderLine` | helper.py:123-124 | the f-string line of one transaction, with `str()` of each field (`LedgerFacts.AliceLine`, `LedgerFacts.RenderLineSingle`) |
| `Ledger.Lines` | helper.py:121-125 | the comprehension of `RenderLine` over the transactions: the closed form of the loop at 121-125, pinned down by `Ledger.RenderMessage` and `LedgerFacts.MessageLines` |
| `Ledger.Message` | helper.py:121-127 | the returned text: the rendered lines of `Transactions` joined by newlines (`Ledger.ParseTransactions`, `LedgerFacts.MessageLines`, `LedgerFacts.MessageEmptyIff`) |
| `Ledger.ParseTransactions` | helper.py:78-127 | the single pass keeps the invariant that `last_sender` is the latest raw sender and the list is the declarative transaction list; it returns exactly `Message` |
| `Ledger.RenderMessage` | helper.py:121-127 | the second loop returns the newline join of one rendered line per transaction, in order |
| `LedgerFacts.SenderBeforePrefix` | helper.py:93-97 | `last_sender` at row `i` depends only on the rows before `i` |
| `LedgerFacts.EmittedPrefix` | helper.py:87-119 | the transactions of the first `n` rows depend only on those rows |
| `LedgerFacts.StopIndexAtBlank` | helper.py:87-90 | in `prefix + [blank] + suffix`, the first blank row lies within `prefix + [blank]`, whatever the suffix holds |
| `LedgerFacts.HardStop` | helper.py:87-90 | the hard stop: with a blank row after `prefix`, the transactions and the message equal those of `prefix` alone, even when later rows are non-blank |
| `LedgerFacts.ReceiverRows` | helper.py:107-110 | at most one counted row per row |
| `LedgerFacts.TransactionCount` | helper.py:87-119 | one transaction per row before the stop whose Receiver is present; this never exceeds the number of rows before the first blank row |
| `LedgerFacts.TransactionHasRow` | helper.py:107-119 | every transaction is the outcome of one row before the stop, and that same row's Receiver is the transaction's receiver exactly as written |
| `LedgerFacts.TransactionOrder` | helper.py:87-119 | transactions keep row order: the transaction of row `i` sits at the position given by the number of earlier rows with a Receiver |
| `LedgerFacts.ReceiverNeverBlank` | helper.py:107-110 | no transaction has a blank receiver |
| `LedgerFacts.RowHasTransaction` | helper.py:107-119 | every row before the stop whose Receiver is present yields a transaction in the output |
| `LedgerFacts.BlankRowCases` | helper.py:89 | a row is blank exactly when all its cells are empty, or all are present strings that strip to "" |
| `LedgerFacts.BlankRowExamples` | helper.py:89 | a row mixing an empty cell with "" is not blank; all-empty and all-whitespace rows are |
| `LedgerFacts.CarryForward` | helper.py:93-97 | a row with a present Sender sets the sender of every following row that leaves it empty, up to the next present Sender, and it is the raw value |
| `LedgerFacts.NoSenderYet` | helper.py:85 | before the first present Sender, `last_sender` is None |
| `LedgerFacts.SenderIsRaw` | helper.py:97-104 | `last_sender` is always the raw Sender cell of an earlier row, never a rewritten `@tag` |
| `LedgerFacts.DroppedRowStillCarries` | helper.py:93-110 | a row without a Receiver emits nothing, yet its Sender is the sender of the next row that leaves Sender empty |
| `LedgerFacts.NoSenderNoLookup` | helper.py:85-104 | with no sender yet, the transaction's sender is None for any lookup table, and its line begins "None owes" |
| `LedgerFacts.TagOfFirstMatch` | helper.py:100-104 | the sender becomes "@" + tag of the first matching lookup row when that tag is present and non-blank; otherwise it stays unchanged, even if a later row matches with a tag |
| `LedgerFacts.NoMatchKeepsSender` | helper.py:100-101 | with no matching lookup row, the sender passes through unchanged: no "@" and no trimming |
| `LedgerFacts.TagIgnoresCaseAndSpace` | helper.py:100 | senders that agree after strip-and-lower find the same lookup row and the same tag |
| `LedgerFacts.NotAvailableOnlyWhenAbsent` | helper.py:114-117 | "Sender Venmo", "Amount" and "Receiver Venmo" read "N/A" when the column is absent, and the cell itself otherwise; an empty cell of a present column prints as "None" |
| `LedgerFacts.MessageEmptyIff` | helper.py:121-127 | the message is "" exactly when there are no transactions, and in particular for no rows |
| `LedgerFacts.RenderLineSingle` | helper.py:123-124 | a line holds no newline when its fields hold none |
| `LedgerFacts.MessageLines` | helper.py:121-127 | when no field holds a newline, the message has exactly one line per transaction, in order, with no trailing newline |
| `LedgerFacts.CarryForwardExample` | helper.py:93-97 | rows (A to X) and ("" to Y) give two transactions, both with sender A |
| `LedgerFacts.AliceTagged` | helper.py:100-104 | the lookup row ("alice", "x", "alicetag") rewrites the sender "Alice" to "@alicetag" |
| `LedgerFacts.AliceOutcome` | helper.py:112-118 | the example row gives the expected transaction, with "N/A" for the absent "Sender Venmo" |
| `LedgerFacts.AliceLine` | helper.py:123-124 | the example transaction renders as "@alicetag owes Bob $10 (Payment Info: @bobvenmo)." |
| `LedgerFacts.EndToEndExample` | helper.py:78-127 | the one-row example gives exactly that message |
| `LedgerFacts.HandleMatchExample` | helper.py:100-104 | the handle " alice " matches the sender "Alice"; a blank tag leaves "Alice" unchanged |
| `Sheets.TitleOf` | helper.py:141-142 | `properties.get('title', '')`: an absent title reads as "" |
| `Sheets.TitleMatches` | helper.py:143 | `title.lower() == sheet_title.lower()` (`Sheets.FirstTabIgnoresCase`) |
| `Sheets.ErrorMessage` | helper.py:145 | the text "Sheet titled '<query>' not found." (`Sheets.ErrorNamesQuery`) |
| `Sheets.FirstTab` | helper.py:37-43 | the first tab in list order whose title equals the query ignoring case; an absent title counts as ""; None when no tab matches |
| `Sheets.FindSheetTitle` | helper.py:36-45 | returns the first matching tab's title; raises not-found naming the query when no tab matches or the matched title is empty |
| `Sheets.FindSheetId` | helper.py:140-145 | returns the first matching tab's `sheetId`, which may be absent; raises not-found naming the query when no tab matches |
| `Sheets.FirstTabIgnoresCase` | helper.py:40 | queries that agree after lower-casing find the same tab |
| `Sheets.FirstTabKeepsEarlier` | helper.py:140-144 | tabs appended after a match never change which tab is found |
| `Sheets.ErrorNamesQuery` | helper.py:45 | the not-found message contains the query verbatim |

## Left out

- Google API authentication and requests (helper.py:19-23, 31-34, 47-62, 136-138) are network I/O. The tab list and the fetched grids are inputs.
- The "No data found in the sheet." error and the DataFrame construction (helper.py:52-55), and the read of cell T31, happen after the fetch. They are not modelled. Ledger rows are given as maps, and lookup rows as sequences.
- `sheet_to_img` (helper.py:147-192) is an HTTP export, PDF rasterisation and image cropping in foreign libraries.
- main.py is the chat-command glue (Discord handlers, token loading, error replies, cooldown) and is not part of this model. It does not call `parse_transactions`.
- `Text.Strip` and `Text.Lower` cover ASCII only. Python's `strip` also removes non-ASCII whitespace, and `lower` does full Unicode case mapping.
- `Ledger.LookupCell`: a lookup frame with fewer than three columns makes pandas raise `IndexError` at `iloc[0, 2]` (and at `iloc[:, 0]` with no columns). The model assumes the lookup tab has at least three header columns. Short rows are padded with None, as the DataFrame does.
- Duplicate column headers in the ledger frame (where `row.get` returns a Series) are not modelled. A map has one cell per header.
- Cells hold strings or None, as the Sheets API returns them. Other pandas values, such as floating-point NaN, are not modelled.
