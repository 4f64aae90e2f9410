/** One account's pass over its fetched transactions: each record whose
    (tranId, tranType) key is not yet in the `records` table is appended as a
    row, and, when notification is on, a message is built for it right after
    the insert. A record whose notification cannot be built stops the pass,
    after its row was written. */
module Ingestion {
  import opened Wrappers
  import opened Records
  import opened Notification

  /** The existence query: some row, under any account, carries key `k`. */
  predicate Stored(table: seq<Row>, k: Key) {
    exists i :: 0 <= i < |table| && RowKey(table[i]) == k
  }

  /** The key-uniqueness invariant of the `records` table. */
  ghost predicate Unique(table: seq<Row>) {
    forall i, j :: 0 <= i < j < |table| ==> RowKey(table[i]) != RowKey(table[j])
  }

  /** How far a pass has got: the table, the records inserted so far, the
      notification texts built so far, and the failure that stopped it, if any. */
  datatype Progress = Progress(table: seq<Row>, inserted: seq<Record>, texts: seq<string>,
                               failure: Option<Failure>)

  function Start(table: seq<Row>): Progress {
    Progress(table, [], [], None)
  }

  /** One iteration of the loop: look the key up, skip or insert, then
      notify about an inserted record when `notify` is on. */
  function Step(p: Progress, account: Account, rec: Record, notify: bool, render: Renderers): (q: Progress)
    requires p.failure.None?
    ensures p.table <= q.table && p.inserted <= q.inserted && p.texts <= q.texts
    ensures Stored(q.table, RecordKey(rec))
  {
    if Stored(p.table, RecordKey(rec)) then p
    else
      var row := RowOf(account.id, rec);
      var added := p.(table := p.table + [row], inserted := p.inserted + [rec]);
      assert added.table[|p.table|] == row;
      if !notify then added
      else
        match Notify(account, rec, render)
        case Success(text) => added.(texts := p.texts + [text])
        case Failure(e) => added.(failure := Some(e))
  }

  /** The rest of the loop from `p` on, over `batch`; a failure stops it. */
  function Run(p: Progress, account: Account, batch: seq<Record>, notify: bool, render: Renderers): Progress
    decreases |batch|
  {
    if batch == [] || p.failure.Some? then p
    else Run(Step(p, account, batch[0], notify, render), account, batch[1..], notify, render)
  }

  /** The whole pass for one account, starting from the table as it is. */
  function Ingested(table: seq<Row>, account: Account, batch: seq<Record>, notify: bool,
                    render: Renderers): Progress
  {
    Run(Start(table), account, batch, notify, render)
  }

  // ---------------------------------------------------------------------
  // Append-only

  lemma RowsOfAppend(accountId: string, a: seq<Record>, b: seq<Record>)
    ensures RowsOf(accountId, a + b) == RowsOf(accountId, a) + RowsOf(accountId, b)
  {
    var l, r := RowsOf(accountId, a + b), RowsOf(accountId, a) + RowsOf(accountId, b);
    assert forall i :: 0 <= i < |l| ==> l[i] == r[i] by {
      forall i | 0 <= i < |l| ensures l[i] == r[i] {
        if i < |a| { assert (a + b)[i] == a[i]; } else { assert (a + b)[i] == b[i - |a|]; }
      }
    }
  }

  /** One step appends exactly the rows of the records it inserts. */
  lemma StepAppends(p: Progress, account: Account, rec: Record, notify: bool, render: Renderers)
    requires p.failure.None?
    ensures var s := Step(p, account, rec, notify, render);
      s.table == p.table + RowsOf(account.id, s.inserted[|p.inserted|..])
  {
    var s := Step(p, account, rec, notify, render);
    if Stored(p.table, RecordKey(rec)) {
      assert s.inserted[|p.inserted|..] == [];
    } else {
      assert s.inserted[|p.inserted|..] == [rec];
      assert RowsOf(account.id, [rec]) == [RowOf(account.id, rec)];
    }
  }

  /** The rest of a pass only appends: the rows it adds are exactly those of
      the records it inserts, in order. */
  lemma {:induction false} RunAppendOnly(p: Progress, account: Account, batch: seq<Record>, notify: bool,
                                         render: Renderers)
    ensures var q := Run(p, account, batch, notify, render);
      && p.inserted <= q.inserted
      && q.table == p.table + RowsOf(account.id, q.inserted[|p.inserted|..])
    decreases |batch|
  {
    if batch != [] && p.failure.None? {
      var s := Step(p, account, batch[0], notify, render);
      var q := Run(s, account, batch[1..], notify, render);
      assert Run(p, account, batch, notify, render) == q;
      StepAppends(p, account, batch[0], notify, render);
      RunAppendOnly(s, account, batch[1..], notify, render);
      AppendsCompose(account.id, p.table, s.table, q.table, p.inserted, s.inserted, q.inserted);
    } else {
      assert p.inserted[|p.inserted|..] == [];
    }
  }

  /** Two appends in a row are one append of the rows of both stretches. */
  lemma AppendsCompose(accountId: string, t0: seq<Row>, t1: seq<Row>, t2: seq<Row>,
                       i0: seq<Record>, i1: seq<Record>, i2: seq<Record>)
    requires i0 <= i1 <= i2
    requires t1 == t0 + RowsOf(accountId, i1[|i0|..])
    requires t2 == t1 + RowsOf(accountId, i2[|i1|..])
    ensures t2 == t0 + RowsOf(accountId, i2[|i0|..])
  {
    var a, b := i1[|i0|..], i2[|i1|..];
    assert i2[|i0|..] == a + b;
    RowsOfAppend(accountId, a, b);
    assert t2 == t0 + (RowsOf(accountId, a) + RowsOf(accountId, b));
  }

  /** Ingestion never changes or removes a row: it appends one row per
      inserted record, holding the account id and that record's fields. */
  lemma IngestAppendOnly(table: seq<Row>, account: Account, batch: seq<Record>, notify: bool,
                         render: Renderers)
    ensures var q := Ingested(table, account, batch, notify, render);
      q.table == table + RowsOf(account.id, q.inserted)
  {
    RunAppendOnly(Start(table), account, batch, notify, render);
  }

  // ---------------------------------------------------------------------
  // Key uniqueness

  lemma UniqueAppend(table: seq<Row>, row: Row)
    requires Unique(table) && !Stored(table, RowKey(row))
    ensures Unique(table + [row])
  {
    var t := table + [row];
    forall i, j | 0 <= i < j < |t| ensures RowKey(t[i]) != RowKey(t[j]) {
      if j == |table| {
        assert t[i] == table[i];
      } else {
        assert t[i] == table[i] && t[j] == table[j];
      }
    }
  }

  lemma {:induction false} RunKeepsUnique(p: Progress, account: Account, batch: seq<Record>, notify: bool,
                                          render: Renderers)
    requires Unique(p.table)
    ensures Unique(Run(p, account, batch, notify, render).table)
    decreases |batch|
  {
    if batch != [] && p.failure.None? {
      var rec := batch[0];
      var s := Step(p, account, rec, notify, render);
      if !Stored(p.table, RecordKey(rec)) {
        UniqueAppend(p.table, RowOf(account.id, rec));
      }
      RunKeepsUnique(s, account, batch[1..], notify, render);
    }
  }

  /** A table with unique keys keeps them unique, even when the batch
      repeats a key: the later occurrences find the row the first one wrote. */
  lemma IngestKeepsUnique(table: seq<Row>, account: Account, batch: seq<Record>, notify: bool,
                          render: Renderers)
    requires Unique(table)
    ensures Unique(Ingested(table, account, batch, notify, render).table)
  {
    RunKeepsUnique(Start(table), account, batch, notify, render);
  }

  // ---------------------------------------------------------------------
  // Existing keys are skipped

  lemma StoredInPrefix(a: seq<Row>, b: seq<Row>, k: Key)
    requires a <= b && Stored(a, k)
    ensures Stored(b, k)
  {
    var i :| 0 <= i < |a| && RowKey(a[i]) == k;
    assert b[i] == a[i];
  }

  /** None of `recs` has a key stored in `table`. */
  ghost predicate AllNew(table: seq<Row>, recs: seq<Record>) {
    forall j :: 0 <= j < |recs| ==> !Stored(table, RecordKey(recs[j]))
  }

  lemma {:induction false} RunInsertsOnlyNew(base: seq<Row>, p: Progress, account: Account, batch: seq<Record>,
                                             notify: bool, render: Renderers)
    requires base <= p.table
    requires AllNew(base, p.inserted)
    ensures AllNew(base, Run(p, account, batch, notify, render).inserted)
    decreases |batch|
  {
    if batch != [] && p.failure.None? {
      var rec := batch[0];
      var s := Step(p, account, rec, notify, render);
      if !Stored(p.table, RecordKey(rec)) {
        if Stored(base, RecordKey(rec)) {
          StoredInPrefix(base, p.table, RecordKey(rec));
        }
        assert s.inserted == p.inserted + [rec];
        assert s.table == p.table + [RowOf(account.id, rec)];
      }
      assert base <= s.table;
      assert AllNew(base, s.inserted);
      RunInsertsOnlyNew(base, s, account, batch[1..], notify, render);
      assert Run(p, account, batch, notify, render) == Run(s, account, batch[1..], notify, render);
    }
  }

  /** A record whose key is already stored is never inserted (and so never
      notified about). */
  lemma IngestInsertsOnlyNew(table: seq<Row>, account: Account, batch: seq<Record>, notify: bool,
                             render: Renderers)
    ensures AllNew(table, Ingested(table, account, batch, notify, render).inserted)
  {
    RunInsertsOnlyNew(table, Start(table), account, batch, notify, render);
  }

  /** The existence check ignores the account: a key stored under another
      account blocks the record for this one too. */
  lemma OtherAccountKeySkipped(table: seq<Row>, account: Account, batch: seq<Record>, notify: bool,
                               render: Renderers, i: nat)
    requires i < |table| && table[i].accountId != account.id
    ensures var q := Ingested(table, account, batch, notify, render);
      forall r :: r in q.inserted ==> RecordKey(r) != RowKey(table[i])
  {
    IngestInsertsOnlyNew(table, account, batch, notify, render);
  }

  // ---------------------------------------------------------------------
  // Idempotence

  ghost predicate AllStored(table: seq<Row>, batch: seq<Record>) {
    forall j :: 0 <= j < |batch| ==> Stored(table, RecordKey(batch[j]))
  }

  /** A batch whose every key is stored changes nothing and notifies nothing. */
  lemma {:induction false} RunAllStored(p: Progress, account: Account, batch: seq<Record>, notify: bool,
                                        render: Renderers)
    requires p.failure.None? && AllStored(p.table, batch)
    ensures Run(p, account, batch, notify, render) == p
    decreases |batch|
  {
    if batch != [] {
      assert Stored(p.table, RecordKey(batch[0]));
      assert AllStored(p.table, batch[1..]) by {
        assert forall j :: 0 <= j < |batch| - 1 ==> batch[1..][j] == batch[j + 1];
      }
      RunAllStored(p, account, batch[1..], notify, render);
    }
  }

  /** After a pass that did not fail, every key of the batch is stored. */
  lemma {:induction false} RunStoresAll(p: Progress, account: Account, batch: seq<Record>, notify: bool,
                                        render: Renderers)
    ensures var q := Run(p, account, batch, notify, render);
      q.failure.None? ==> AllStored(q.table, batch)
    decreases |batch|
  {
    var q := Run(p, account, batch, notify, render);
    if batch != [] && p.failure.None? {
      var s := Step(p, account, batch[0], notify, render);
      RunStoresAll(s, account, batch[1..], notify, render);
      RunAppendOnly(s, account, batch[1..], notify, render);
      if q.failure.None? {
        StoredInPrefix(s.table, q.table, RecordKey(batch[0]));
        forall j | 0 <= j < |batch| ensures Stored(q.table, RecordKey(batch[j])) {
          if j > 0 { assert batch[j] == batch[1..][j - 1]; }
        }
      }
    }
  }

  /** Ingesting the same batch again, against the table a pass that did not
      fail left, inserts nothing and notifies nothing, whatever the notify
      flag and the renderers of the later run. */
  lemma IngestIdempotent(table: seq<Row>, account: Account, batch: seq<Record>, notify: bool,
                         render: Renderers, notify': bool, render': Renderers)
    requires Ingested(table, account, batch, notify, render).failure.None?
    ensures var q := Ingested(table, account, batch, notify, render);
      Ingested(q.table, account, batch, notify', render') == Start(q.table)
  {
    var q := Ingested(table, account, batch, notify, render);
    RunStoresAll(Start(table), account, batch, notify, render);
    RunAllStored(Start(q.table), account, batch, notify', render');
  }

  // ---------------------------------------------------------------------
  // Notifications

  lemma {:induction false} RunSilent(p: Progress, account: Account, batch: seq<Record>, render: Renderers)
    ensures var q := Run(p, account, batch, false, render);
      q.texts == p.texts && q.failure == p.failure
    decreases |batch|
  {
    if batch != [] && p.failure.None? {
      RunSilent(Step(p, account, batch[0], false, render), account, batch[1..], render);
    }
  }

  /** With the notify flag off, no message is built and nothing can fail. */
  lemma IngestSilentWithoutNotify(table: seq<Row>, account: Account, batch: seq<Record>, render: Renderers)
    ensures var q := Ingested(table, account, batch, false, render);
      q.texts == [] && q.failure.None?
  {
    RunSilent(Start(table), account, batch, render);
  }

  /** The texts are the notifications of the inserted records, in order;
      a failure is the notification of the last inserted record failing. */
  ghost predicate Announced(account: Account, render: Renderers, p: Progress) {
    && |p.texts| <= |p.inserted|
    && (forall j :: 0 <= j < |p.texts| ==> Notify(account, p.inserted[j], render) == Success(p.texts[j]))
    && (p.failure.None? ==> |p.texts| == |p.inserted|)
    && (p.failure.Some? ==>
          |p.texts| + 1 == |p.inserted|
          && Notify(account, p.inserted[|p.texts|], render) == Failure(p.failure.value))
  }

  lemma {:induction false} RunAnnounces(p: Progress, account: Account, batch: seq<Record>, render: Renderers)
    requires Announced(account, render, p)
    ensures Announced(account, render, Run(p, account, batch, true, render))
    decreases |batch|
  {
    if batch != [] && p.failure.None? {
      var rec := batch[0];
      var s := Step(p, account, rec, true, render);
      if !Stored(p.table, RecordKey(rec)) {
        assert s.inserted == p.inserted + [rec];
        assert forall j :: 0 <= j < |p.texts| ==> s.inserted[j] == p.inserted[j];
      }
      RunAnnounces(s, account, batch[1..], render);
    }
  }

  /** With the notify flag on, exactly the inserted records are notified
      about, in batch order, until a notification fails. */
  lemma IngestNotifiesInserted(table: seq<Row>, account: Account, batch: seq<Record>, render: Renderers)
    ensures Announced(account, render, Ingested(table, account, batch, true, render))
  {
    RunAnnounces(Start(table), account, batch, render);
  }

  /** A pass that stops on a failed notification leaves the failed record's
      row in the table, so no later pass, for any account, inserts that
      record again: its notification is never sent. */
  lemma FailedRecordNeverRetried(table: seq<Row>, account: Account, batch: seq<Record>, render: Renderers,
                                 other: Account, later: seq<Record>, notify: bool, render': Renderers)
    requires Ingested(table, account, batch, true, render).failure.Some?
    ensures var q := Ingested(table, account, batch, true, render);
      && |q.inserted| > 0
      && var failed := q.inserted[|q.inserted| - 1];
      && Notify(account, failed, render) == Failure(q.failure.value)
      && Stored(q.table, RecordKey(failed))
      && forall r :: r in Ingested(q.table, other, later, notify, render').inserted ==>
           RecordKey(r) != RecordKey(failed)
  {
    var q := Ingested(table, account, batch, true, render);
    IngestNotifiesInserted(table, account, batch, render);
    IngestAppendOnly(table, account, batch, true, render);
    var last := |q.inserted| - 1;
    var failed := q.inserted[last];
    RowsOfAt(account.id, q.inserted, last);
    assert q.table[|table| + last] == RowsOf(account.id, q.inserted)[last];
    assert Stored(q.table, RecordKey(failed));
    IngestInsertsOnlyNew(q.table, other, later, notify, render');
  }

  // ---------------------------------------------------------------------
  // Which records are inserted

  /** Position `i` of the batch holds the first occurrence of a key that is
      not in `table`. */
  predicate FirstNew(table: seq<Row>, batch: seq<Record>, i: nat)
    requires i < |batch|
  {
    && !Stored(table, RecordKey(batch[i]))
    && forall j :: 0 <= j < i ==> RecordKey(batch[j]) != RecordKey(batch[i])
  }

  /** The records at first-new positions, in batch order. */
  function Novel(table: seq<Row>, batch: seq<Record>): seq<Record>
    decreases |batch|
  {
    if batch == [] then []
    else
      var n := |batch| - 1;
      Novel(table, batch[..n]) + (if FirstNew(table, batch, n) then [batch[n]] else [])
  }

  /** `t` stores exactly the keys of `base` and of the records `done`. */
  ghost predicate Covers(t: seq<Row>, base: seq<Row>, done: seq<Record>) {
    forall k :: Stored(t, k) <==> Stored(base, k) || exists j :: 0 <= j < |done| && RecordKey(done[j]) == k
  }

  lemma StoredAppend(t: seq<Row>, row: Row, k: Key)
    ensures Stored(t + [row], k) <==> Stored(t, k) || RowKey(row) == k
  {
    var t' := t + [row];
    if Stored(t', k) {
      var i :| 0 <= i < |t'| && RowKey(t'[i]) == k;
      if i < |t| { assert t[i] == t'[i]; }
    }
    if Stored(t, k) {
      var i :| 0 <= i < |t| && RowKey(t[i]) == k;
      assert t'[i] == t[i];
    }
    assert t'[|t|] == row;
  }

  /** Where `t` covers `done`, the next record is first-new exactly when its
      key is not stored in `t`. */
  lemma NovelStep(base: seq<Row>, done: seq<Record>, t: seq<Row>, rec: Record)
    requires Covers(t, base, done)
    ensures Novel(base, done + [rec]) == Novel(base, done) + (if Stored(t, RecordKey(rec)) then [] else [rec])
  {
    var done' := done + [rec];
    assert done'[..|done|] == done;
    assert done'[|done|] == rec;
    assert FirstNew(base, done', |done|) <==> !Stored(t, RecordKey(rec)) by {
      assert forall j :: 0 <= j < |done| ==> done'[j] == done[j];
    }
  }

  /** Storing the next record's key when missing keeps the cover. */
  lemma CoversStep(base: seq<Row>, done: seq<Record>, t: seq<Row>, accountId: string, rec: Record)
    requires Covers(t, base, done)
    ensures var t' := if Stored(t, RecordKey(rec)) then t else t + [RowOf(accountId, rec)];
      Covers(t', base, done + [rec])
  {
    var t' := if Stored(t, RecordKey(rec)) then t else t + [RowOf(accountId, rec)];
    var done' := done + [rec];
    forall k' ensures Stored(t', k') <==> Stored(base, k') || exists j :: 0 <= j < |done'| && RecordKey(done'[j]) == k' {
      if !Stored(t, RecordKey(rec)) {
        StoredAppend(t, RowOf(accountId, rec), k');
      }
      assert done'[|done|] == rec;
      if exists j :: 0 <= j < |done'| && RecordKey(done'[j]) == k' {
        var j :| 0 <= j < |done'| && RecordKey(done'[j]) == k';
        if j < |done| { assert done[j] == done'[j]; }
      }
      if exists j :: 0 <= j < |done| && RecordKey(done[j]) == k' {
        var j :| 0 <= j < |done| && RecordKey(done[j]) == k';
        assert done'[j] == done[j];
      }
    }
  }

  lemma {:induction false} RunInsertsNovel(base: seq<Row>, done: seq<Record>, p: Progress, account: Account,
                                           rest: seq<Record>, notify: bool, render: Renderers)
    requires p.failure.None?
    requires p.inserted == Novel(base, done)
    requires Covers(p.table, base, done)
    ensures var q := Run(p, account, rest, notify, render);
      q.failure.None? ==> q.inserted == Novel(base, done + rest)
    decreases |rest|
  {
    if rest == [] {
      assert done + rest == done;
    } else {
      var rec := rest[0];
      var s := Step(p, account, rec, notify, render);
      var stored := Stored(p.table, RecordKey(rec));
      assert s.table == if stored then p.table else p.table + [RowOf(account.id, rec)];
      assert s.inserted == p.inserted + (if stored then [] else [rec]);
      NovelStep(base, done, p.table, rec);
      CoversStep(base, done, p.table, account.id, rec);
      assert Run(p, account, rest, notify, render) == Run(s, account, rest[1..], notify, render);
      if s.failure.None? {
        RunInsertsNovel(base, done + [rec], s, account, rest[1..], notify, render);
        assert done + [rec] + rest[1..] == done + rest;
      }
    }
  }

  /** A pass that does not fail inserts exactly the first occurrence of each
      key that was not already stored, in batch order. */
  lemma IngestInsertsFirstOccurrences(table: seq<Row>, account: Account, batch: seq<Record>, notify: bool,
                                      render: Renderers)
    ensures var q := Ingested(table, account, batch, notify, render);
      q.failure.None? ==> q.inserted == Novel(table, batch)
  {
    RunInsertsNovel(table, [], Start(table), account, batch, notify, render);
    assert [] + batch == batch;
  }

  /** Two fetched records, the first already stored and the second new:
      one row is written and one message is built, both for the new record. */
  lemma OneStoredOneNew(table: seq<Row>, account: Account, known: Record, unseen: Record, render: Renderers)
    requires Stored(table, RecordKey(known)) && !Stored(table, RecordKey(unseen))
    requires Notify(account, unseen, render).Success?
    ensures var q := Ingested(table, account, [known, unseen], true, render);
      && q.table == table + [RowOf(account.id, unseen)]
      && q.inserted == [unseen]
      && q.texts == [Notify(account, unseen, render).value]
      && q.failure.None?
  {
    var p := Start(table);
    var s := Step(p, account, unseen, true, render);
    assert Step(p, account, known, true, render) == p;
    assert s == Progress(table + [RowOf(account.id, unseen)], [unseen], [Notify(account, unseen, render).value], None);
    calc {
      Ingested(table, account, [known, unseen], true, render);
      Run(p, account, [known, unseen], true, render);
      { assert [known, unseen][1..] == [unseen]; }
      Run(p, account, [unseen], true, render);
      { assert [unseen][1..] == []; }
      Run(s, account, [], true, render);
      s;
    }
  }

  lemma KeepsTableInvariants(table: seq<Row>, account: Account, batch: seq<Record>, notify: bool,
                              render: Renderers)
    ensures var q := Ingested(table, account, batch, notify, render);
      && q.table == table + RowsOf(account.id, q.inserted)
      && (Unique(table) ==> Unique(q.table))
  {
    IngestAppendOnly(table, account, batch, notify, render);
    if Unique(table) {
      IngestKeepsUnique(table, account, batch, notify, render);
    }
  }

  /** The `records` table, updated in place by the ingestion loop. */
  class RecordsTable {
    var rows: seq<Row>

    constructor (rows: seq<Row>)
      ensures this.rows == rows
    {
      this.rows := rows;
    }

    /** Saves the new records of `batch` under `account` and builds their
        notifications; returns the inserted records, the notification texts
        and the failure that stopped the pass, if any. */
    method Ingest(account: Account, batch: seq<Record>, notify: bool, render: Renderers)
      returns (inserted: seq<Record>, texts: seq<string>, failure: Option<Failure>)
      modifies this
      ensures Progress(rows, inserted, texts, failure) == Ingested(old(rows), account, batch, notify, render)
      ensures rows == old(rows) + RowsOf(account.id, inserted)
      ensures Unique(old(rows)) ==> Unique(rows)
    {
      inserted, texts, failure := [], [], None;
      for i := 0 to |batch|
        invariant Ingested(old(rows), account, batch, notify, render)
               == Run(Progress(rows, inserted, texts, None), account, batch[i..], notify, render)
      {
        var record := batch[i];
        assert batch[i..][1..] == batch[i + 1..];
        var found := Stored(rows, RecordKey(record));
        if found {
          continue;
        }
        rows := rows + [RowOf(account.id, record)];
        inserted := inserted + [record];
        if !notify {
          continue;
        }
        var message := Notify(account, record, render);
        if message.Failure? {
          failure := Some(message.error);
          KeepsTableInvariants(old(rows), account, batch, notify, render);
          return;
        }
        texts := texts + [message.value];
      }
      KeepsTableInvariants(old(rows), account, batch, notify, render);
    }
  }
}
