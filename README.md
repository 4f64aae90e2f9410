# Transaction ingestion: a Dafny model

This project models the part of the bank-transaction polling job that saves transactions and builds notifications. For each account, the job fetches up to 500 transaction records from the bank's partner API. It walks them in order and asks the `records` table whether a row with the same `(tran_id, tran_type)` key exists, under any account. If one exists, the record is skipped. Otherwise a row holding the account id and the record's fields is inserted. When the `--notify` flag is on, a chat message is then built for the inserted record. The message opens with a green heart for credits (`tranType == "C"`) and a plain heart otherwise. Its text is `strings.Join(strings.Fields(...), " ")` of a fixed format, so every whitespace run collapses to one space.

The model has five modules:

- `Wrappers`: `Option` and `Result`. The Go code's `panic` paths come back as values.
- `Records`: the `account` and `record` types, the stored `Row` and the `(tranId, tranType)` `Key`.
- `Whitespace`: Go's `unicode.IsSpace`, `strings.Fields` and `strings.Join` over `seq<char>`. It also defines `Collapse`, the normalisation the message goes through, with its laws.
- `Notification`: the credit/debit classification, the message format and `Notify`. `Notify` fails when the posted date or the amount cannot be rendered.
- `Ingestion`: the loop over the fetched records. The class `RecordsTable` holds the table as a `seq<Row>`. Its method `Ingest` updates the table in place with a `for` loop. That method is proved equal to the value-level specification `Ingested`, and the table properties are proved about `Ingested`. `Ingested` is built from `Step` and `Run`, and `Stored` is the existence query. Their meaning is given by the lemmas in the table below.

Points of the code's behaviour that the model keeps as written:

- The message also contains the literal words `New Unionbank`, a colon after the transaction id, and `on` before the date. Its remarks come in the order `remarks`, then `remarks2`.
- The notification is built after the insert. A record whose date or amount does not parse therefore stops the pass with its row already written. Later passes skip that record, so its notification is never sent.
- With the notify flag off, nothing is parsed, so nothing can fail.

## Model

| member | source | states |
|---|---|---|
| `Records.RowOf` | main.go:118 | the inserted row carries the current account's id and the record's (tranId, tranType) key |
| `Records.RowsOf` | main.go:118 | one row per inserted record: as many rows as records |
| `Records.RowsOfAt` | main.go:118 | the rows keep the records' order: the i-th row is the i-th record's row and carries its key |
| `Records.RowOfKeepsFields` | main.go:118 | two records give the same row under one account exactly when they agree on every field except the record number, which is not stored |
| `Whitespace.FieldsValid` | main.go:150 | every field that `strings.Fields` returns is a non-empty word without whitespace |
| `Whitespace.FieldsVisible` | main.go:150 | the fields, concatenated, are exactly the non-whitespace characters of the input, in order |
| `Whitespace.FieldsAroundSpace` | main.go:150 | a space separates fields: the fields of `a + " " + b` are those of `a` followed by those of `b` |
| `Whitespace.FieldsOfJoin` | main.go:150 | the fields of a single-space join are the fields of its parts, in order |
| `Whitespace.FieldsJoin` | main.go:150 | round trip: splitting the single-space join of valid fields gives back the same fields |
| `Whitespace.CollapseCollapsed` | main.go:150 | the collapsed text has no leading or trailing whitespace, no two adjacent whitespace characters, and the plain space is its only whitespace character |
| `Whitespace.CollapseIdempotent` | main.go:150 | collapsing twice gives the same text as collapsing once |
| `Whitespace.CollapseFixesCollapsed` | main.go:150 | collapse leaves a string unchanged if and only if it is already collapsed |
| `Whitespace.CollapseKeepsVisible` | main.go:150 | collapsing changes only whitespace: the non-whitespace characters stay, in order |
| `Notification.DirectionOf` | main.go:130-136 | a record is a credit if and only if its tranType is exactly "C"; every other type, the empty one included, is a debit |
| `Notification.Icon` | main.go:130-135 | the icon is a single word; it is ":green_heart:" exactly for a credit and ":heart:" exactly for a debit |
| `Notification.Label` | main.go:130-135 | the kind is a single word; it is "Credit" exactly for a credit and "Debit" exactly for a debit |
| `Notification.TemplateIsFormat` | main.go:150 | the formatted line is exactly the format "%s New Unionbank %s %s %s: %s %s %s %s %s on %s" filled with icon, name, kind, id, amount, currency, description, remarks, remarks2 and date |
| `Notification.Notify` | main.go:138-152 | building the message fails if and only if the posted date or the amount cannot be rendered; a bad date is reported first, then a bad amount |
| `Notification.MessageWords` | main.go:150-152 | the message is the words of the format's parts (icon, "New Unionbank", name, kind, id with colon, amount, currency, description, remarks, remarks2, "on", date), in order, joined by single spaces |
| `Notification.MessageOpening` | main.go:150 | the message's first words are the icon, "New", "Unionbank", then the words of the account name, then the kind; the text starts with the icon |
| `Notification.NotifyWords` | main.go:130-152 | a built message's words are, in order, the words of the format filled from the record: the direction's icon, "New", "Unionbank", the account name, the kind, the id with its colon, the rendered amount, currency, description, remarks, remarks2, "on" and the rendered posted date |
| `Notification.NotifyText` | main.go:127-152 | a built message is collapsed; its first word is ":green_heart:" when tranType is "C" and ":heart:" otherwise; the word right after the account name is "Credit" when tranType is "C" and "Debit" otherwise; the text starts with ":green_heart:" if and only if tranType is "C" |
| `Ingestion.Step` | main.go:108-125 | after one iteration the record's key is stored; the table, the inserted list and the texts only grow |
| `Ingestion.RecordsTable.Ingest` | main.go:107-125 | the loop leaves the table, inserted records, texts and failure that `Ingested` specifies; the table is the old rows plus one row per inserted record; key uniqueness is kept |
| `Ingestion.IngestAppendOnly` | main.go:107-121 | existing rows are never changed or removed; the new table is the old one followed by one row per inserted record, in order, holding the account id and that record's fields |
| `Ingestion.IngestKeepsUnique` | main.go:107-121 | if no two rows share a key before the pass, none do after it, even when the batch repeats a key |
| `Ingestion.IngestInsertsOnlyNew` | main.go:110-116 | no inserted record (and so no notified record) has a key that was already stored |
| `Ingestion.OtherAccountKeySkipped` | main.go:110 | the existence check ignores the account: a key stored under another account is never inserted again for this one |
| `Ingestion.IngestIdempotent` | main.go:107-121 | after a pass that did not fail, running the same batch again on the table it left inserts nothing, notifies nothing and fails nowhere, whatever the later run's notify flag and renderers |
| `Ingestion.FailedRecordNeverRetried` | main.go:118-146 | when a pass stops on a failed notification, the failed record's row is already stored, so no later pass for any account inserts that record again and its notification is never sent |
| `Ingestion.IngestSilentWithoutNotify` | main.go:122-125 | with the notify flag off, no message is built and the pass cannot fail |
| `Ingestion.IngestNotifiesInserted` | main.go:118-146 | with the flag on, the texts are the messages of exactly the inserted records, in batch order; a failure is the last inserted record's message failing, after its row was written |
| `Ingestion.IngestInsertsFirstOccurrences` | main.go:107-121 | a pass that does not fail inserts exactly the records that are the first occurrence in the batch of a key not already stored, in batch order |
| `Ingestion.OneStoredOneNew` | main.go:107-125 | for a stored record followed by a new one, one row and one message are produced, both for the new record |

## Left out

- The OAuth token request and the transaction fetch (main.go:45-104): network I/O and JSON decoding. The fetched records are the `batch` parameter.
- `getAccounts` and the loop over accounts (main.go:31-43, 165-198): database row scanning. Each account's pass is modelled on its own, from the table the previous pass left.
- SQL failures of the existence query and the insert (main.go:110-112, 118-120): in the model the store never fails.
- Posted-date parsing and formatting (main.go:138-141, 152) and amount parsing and formatting (main.go:143-146, 151): these are Go's `time` layouts, 64-bit floats and the `x/text/message` printer. They are the `Renderers` parameter, two functions that may fail.
- JSON encoding and the webhook POST (main.go:154-160): I/O. The model returns each message's text in order. A failing POST is not modelled.
- `panic`: a failure is returned and ends the pass. Process termination, and the accounts left unprocessed after it, are not modelled.
- Concurrent runs and the race between the existence check and the insert: the model is one sequential writer.
- Go strings are byte strings. The model works on characters, so invalid UTF-8 is not modelled.
