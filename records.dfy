/** The entities of the ingestion job: an account credential set, a transaction
    record as the partner API returns it, and a row of the `records` table. */
module Records {

  /** One bank-account credential set, read once from the `accounts` table. */
  datatype Account = Account(
    id: string,
    number: string,
    name: string,
    clientId: string,
    clientSecret: string,
    username: string,
    password: string,
    partnerId: string)

  /** A transaction record as decoded from the partner's `Records` array. */
  datatype Record = Record(
    recordNumber: string,
    tranId: string,
    tranType: string,
    amount: string,
    currency: string,
    tranDate: string,
    remarks2: string,
    remarks: string,
    balanceCurrency: string,
    postedDate: string,
    tranDescription: string)

  /** A row of the `records` table: the owning account id and every field of
      the record except its record number, which is not stored. */
  datatype Row = Row(
    accountId: string,
    tranId: string,
    tranType: string,
    amount: string,
    currency: string,
    tranDate: string,
    remarks2: string,
    remarks: string,
    balanceCurrency: string,
    postedDate: string,
    tranDescription: string)

  /** The natural key the existence check looks up: (tran_id, tran_type). */
  datatype Key = Key(tranId: string, tranType: string)

  function RecordKey(r: Record): Key {
    Key(r.tranId, r.tranType)
  }

  function RowKey(r: Row): Key {
    Key(r.tranId, r.tranType)
  }

  /** The row that the INSERT statement writes for `rec` under account `accountId`. */
  function RowOf(accountId: string, rec: Record): (row: Row)
    ensures row.accountId == accountId
    ensures RowKey(row) == RecordKey(rec)
  {
    Row(accountId, rec.tranId, rec.tranType, rec.amount, rec.currency, rec.tranDate,
        rec.remarks2, rec.remarks, rec.balanceCurrency, rec.postedDate, rec.tranDescription)
  }

  /** The rows written for `recs`, in order. */
  function RowsOf(accountId: string, recs: seq<Record>): (rows: seq<Row>)
    ensures |rows| == |recs|
  {
    seq(|recs|, i requires 0 <= i < |recs| => RowOf(accountId, recs[i]))
  }

  /** One row per record, in the records' order. */
  lemma RowsOfAt(accountId: string, recs: seq<Record>, i: nat)
    requires i < |recs|
    ensures RowsOf(accountId, recs)[i] == RowOf(accountId, recs[i])
    ensures RowKey(RowsOf(accountId, recs)[i]) == RecordKey(recs[i])
  {
  }

  /** A stored row carries exactly the record's fields: two records that give
      the same row under one account agree on everything but the record number. */
  lemma RowOfKeepsFields(accountId: string, a: Record, b: Record)
    ensures RowOf(accountId, a) == RowOf(accountId, b) <==> a.(recordNumber := b.recordNumber) == b
  {
  }
}
