/** The engine's stored state and the operations that change it: the item
    list, the trash, the edit log and the two counters that `localStorage`
    holds, with the serial and log-id issuers, the edit log writer, the save
    handler, the trash operations and the CSV import. */
module Storage {
  import opened Wrappers
  import opened Text
  import opened Calendar
  import opened Records
  import opened Identifiers
  import opened Status
  import opened Period
  import opened Changes
  import opened Csv
  import opened Import
  import opened SaveForm

  /** The log entries carry the ids the log counter issued, from the first
      one on, in order. */
  predicate LogIdsIssued(logs: seq<LogEntry>)
  {
    forall k :: 0 <= k < |logs| ==> logs[k].id == LogIdText(LogSeed + k + 1)
  }

  /** No two log entries share an id. */
  lemma LogIdsDistinct(logs: seq<LogEntry>)
    requires LogIdsIssued(logs)
    ensures forall i, j :: 0 <= i < j < |logs| ==> logs[i].id != logs[j].id
  {
    forall i, j | 0 <= i < j < |logs|
      ensures logs[i].id != logs[j].id
    {
      if logs[i].id == logs[j].id {
        LogIdInjective(LogSeed + i + 1, LogSeed + j + 1);
      }
    }
  }

  /** The edit number a new log entry for `id` gets: the edit count of the
      first stored item with that id, or 0, plus one. */
  function EditIndex(items: seq<Item>, id: string): (r: int)
    ensures r >= 1
    ensures FindIndex(items, id).Some? ==> r == items[FindIndex(items, id).value].editCount + 1
  {
    var found := FindIndex(items, id);
    (if found.Some? then items[found.value].editCount else 0) + 1
  }

  /** The log entry of an edit of `before`, the log counter moved on to
      `counter`. */
  function EditLog(counter: nat, before: Item, changes: seq<Change>, now: int): LogEntry
  {
    LogEntry(LogIdText(counter), before.id, before.name, before.pgSerial, changes,
             before.editCount + 1, At(now))
  }

  /** The items held in the trash. */
  function Held(trash: seq<Trashed>): (r: seq<Item>)
    ensures |r| == |trash|
    ensures forall k :: 0 <= k < |trash| ==> r[k] == trash[k].item
  {
    if trash == [] then [] else [trash[0].item] + Held(trash[1..])
  }

  /** The item a restore puts back: its creation time moved 37 hours
      earlier when it has one; `None` when that throws (an unreadable
      creation time, or one moved out of range). */
  function Restored(item: Item): (r: Option<Item>)
    ensures r.Some? ==> r.value == item.(createdAt := r.value.createdAt)
    ensures item.createdAt.Absent? ==> r == Some(item)
    ensures item.createdAt.Invalid? ==> r.None?
  {
    match item.createdAt
    case Absent => Some(item)
    case Invalid => None
    case At(ms) =>
      var moved := AddHours(ms, -37);
      if moved.Some? then Some(item.(createdAt := At(moved.value))) else None
  }

  /** A restored item created before the restore is not NEW then or
      later. */
  lemma RestoredNotNewAgain(item: Item, restoredAt: int, now: int)
    requires Restored(item).Some?
    requires item.createdAt.At? ==> item.createdAt.ms <= restoredAt
    requires restoredAt <= now
    ensures !IsItemNew(Restored(item).value, now)
  {
    if item.createdAt.At? {
      RestoredNotNew(item, restoredAt, now);
    }
  }

  class Store {
    var items: seq<Item>
    var trash: seq<Trashed>
    var logs: seq<LogEntry>
    /** The last serial counter value issued (625001 before the first). */
    var pgCounter: int
    /** The last log id counter value issued (10000000 before the first). */
    var logCounter: nat

    /** The serial counter stays in its range; the log counter has issued
        exactly one id per log entry, in order. */
    predicate Valid()
      reads this
    {
      && PgFirst <= pgCounter <= PgLast
      && logCounter == LogSeed + |logs|
      && LogIdsIssued(logs)
    }

    /** Storage with nothing in it. */
    constructor()
      ensures Valid()
      ensures items == [] && trash == [] && logs == []
      ensures pgCounter == PgFirst && logCounter == LogSeed
    {
      items := [];
      trash := [];
      logs := [];
      pgCounter := PgFirst;
      logCounter := LogSeed;
    }

    /** `nextPgSerial()`: moves the serial counter on and returns the serial
        of its new value. */
    method NextPgSerial() returns (serial: string)
      requires Valid()
      modifies this
      ensures Valid()
      ensures pgCounter == NextPg(old(pgCounter)) && serial == PgSerialText(pgCounter)
      ensures items == old(items) && trash == old(trash) && logs == old(logs)
      ensures logCounter == old(logCounter)
    {
      pgCounter := NextPg(pgCounter);
      serial := PgSerialText(pgCounter);
    }

    /** `nextLogId()`: moves the log counter on and returns the id of its
        new value. */
    method NextLogId() returns (id: string)
      modifies this
      ensures logCounter == old(logCounter) + 1 && id == LogIdText(logCounter)
      ensures items == old(items) && trash == old(trash) && logs == old(logs)
      ensures pgCounter == old(pgCounter)
    {
      logCounter := logCounter + 1;
      id := LogIdText(logCounter);
    }

    /** `saveLog(itemId, name, pgSerial, changes)` at instant `now`: nothing
        for an empty change list; otherwise one entry with a new id and the
        edit number after the item's stored edit count. */
    method SaveLog(itemId: string, name: string, pgSerial: string, changes: seq<Change>, now: int)
      requires Valid()
      modifies this
      ensures Valid()
      ensures changes == [] ==> logs == old(logs) && logCounter == old(logCounter)
      ensures changes != [] ==>
        && logs == old(logs) + [LogEntry(LogIdText(old(logCounter) + 1), itemId, name, pgSerial,
                                         changes, EditIndex(items, itemId), At(now))]
        && logCounter == old(logCounter) + 1
      ensures items == old(items) && trash == old(trash) && pgCounter == old(pgCounter)
    {
      if changes == [] {
        return;
      }
      var editIndex := EditIndex(items, itemId);
      var id := NextLogId();
      logs := logs + [LogEntry(id, itemId, name, pgSerial, changes, editIndex, At(now))];
    }

    /** The save button: edits the item with id `editing`, or adds one with
        id `id`, at instant `now`. An accepted edit writes its log entry
        before the item is replaced. */
    method Save(editing: Option<string>, form: Form, id: string, now: int) returns (saved: Saved)
      requires Valid()
      modifies this
      ensures Valid()
      ensures saved == SaveResult(old(items), old(pgCounter), editing, form, id, now)
      ensures saved.Added? ==> items == old(items) + [saved.item] && pgCounter == NextPg(old(pgCounter))
      ensures !saved.Added? ==> pgCounter == old(pgCounter)
      ensures saved.Updated? ==> items == old(items)[saved.index := saved.item]
      ensures saved.Updated? ==>
        logs == old(logs) + [EditLog(old(logCounter) + 1, old(items)[saved.index], saved.changes, now)]
      ensures !saved.Updated? ==> logs == old(logs) && logCounter == old(logCounter)
      ensures !saved.Added? && !saved.Updated? ==> items == old(items)
      ensures trash == old(trash)
    {
      if editing.Some? && Locked(items, editing.value) {
        return Refused(ImportLocked);
      }
      var checked := Validate(form);
      if checked.Err? {
        return Refused(checked.error);
      }
      var e := checked.value;
      var advanced := ComputeAdvance(e.buy, e.period, FormStep(e.unit));
      var end := Clamp(advanced, e.buy);
      if end.None? {
        return Refused(SaveFailed);
      }
      if editing.Some? {
        saved := SaveEdit(editing.value, form, e, end.value, id, now);
      } else {
        AddOutcome(items, pgCounter, form, id, now, e);
        saved := SaveAdd(e, end.value, id, now);
      }
    }

    /** The edit path of the save button, once the form passed the checks
        and gave a valid end date. */
    method SaveEdit(editing: string, form: Form, e: Entry, end: int, id: string, now: int)
      returns (saved: Saved)
      requires Valid()
      requires !Locked(items, editing) && Validate(form) == Ok(e)
      requires FormEndDate(e.buy, e.period, e.unit) == Some(end)
      modifies this
      ensures Valid()
      ensures saved == SaveResult(old(items), old(pgCounter), Some(editing), form, id, now)
      ensures saved.Updated? ==> items == old(items)[saved.index := saved.item]
      ensures saved.Updated? ==>
        logs == old(logs) + [EditLog(old(logCounter) + 1, old(items)[saved.index], saved.changes, now)]
      ensures !saved.Updated? ==> items == old(items) && logs == old(logs) && logCounter == old(logCounter)
      ensures pgCounter == old(pgCounter) && trash == old(trash)
    {
      var found := FindIndex(items, editing);
      if found.None? {
        return Vanished;
      }
      var k := found.value;
      var before := items[k];
      var item := EditedItem(before, e, end, now);
      var changes := Diff(before, item);
      EditOutcome(items, pgCounter, editing, form, id, now, e, k);
      if changes == [] {
        return Unchanged;
      }
      ghost var entry := LogEntry(LogIdText(logCounter + 1), before.id, before.name, before.pgSerial,
                                  changes, EditIndex(items, before.id), At(now));
      assert entry == EditLog(logCounter + 1, before, changes, now);
      SaveLog(before.id, before.name, before.pgSerial, changes, now);
      assert logs == old(logs) + [entry];
      items := items[k := item];
      saved := Updated(k, item, changes);
    }

    /** The add path of the save button, once the form passed the checks:
        refused as a duplicate, or added with the next serial. */
    method SaveAdd(e: Entry, end: int, id: string, now: int) returns (saved: Saved)
      requires Valid()
      modifies this
      ensures Valid()
      ensures saved == if FormDuplicate(old(items), e.name, e.serial) then Refused(DuplicateItem)
                       else Added(NewItem(e, end, id, PgSerialText(NextPg(old(pgCounter))), now))
      ensures saved.Added? ==> items == old(items) + [saved.item] && pgCounter == NextPg(old(pgCounter))
      ensures !saved.Added? ==> items == old(items) && pgCounter == old(pgCounter)
      ensures logs == old(logs) && logCounter == old(logCounter) && trash == old(trash)
    {
      if FormDuplicate(items, e.name, e.serial) {
        return Refused(DuplicateItem);
      }
      var serial := NextPgSerial();
      var item := NewItem(e, end, id, serial, now);
      items := items + [item];
      saved := Added(item);
    }

    /** `moveToTrash(id)` at instant `now`: the first item with that id
        leaves the list and joins the end of the trash, stamped with the
        time and its id; nothing happens when no item has it. */
    method MoveToTrash(id: string, now: int)
      requires Valid()
      modifies this
      ensures Valid()
      ensures FindIndex(old(items), id).None? ==> items == old(items) && trash == old(trash)
      ensures FindIndex(old(items), id).Some? ==>
        var k := FindIndex(old(items), id).value;
        && items == Without(old(items), k)
        && trash == old(trash) + [Trashed(old(items)[k], At(now), id)]
      ensures multiset(items) + multiset(Held(trash)) == old(multiset(items) + multiset(Held(trash)))
      ensures logs == old(logs) && pgCounter == old(pgCounter) && logCounter == old(logCounter)
    {
      var found := FindIndex(items, id);
      if found.None? {
        return;
      }
      var k := found.value;
      var item := items[k];
      assert items == items[..k] + [item] + items[k + 1..];
      assert Held(trash + [Trashed(item, At(now), id)]) == Held(trash) + [item];
      items := Without(items, k);
      trash := trash + [Trashed(item, At(now), id)];
    }

    /** `restoreItem(id)`: the first trashed item with that id leaves the
        trash and joins the end of the list, its creation time moved 37
        hours earlier; nothing happens when no trashed item has it or when
        moving the creation time throws. */
    method RestoreItem(id: string)
      requires Valid()
      modifies this
      ensures Valid()
      ensures var found := FindTrashed(old(trash), id);
        found.None? || Restored(old(trash)[found.value].item).None? ==>
          items == old(items) && trash == old(trash)
      ensures var found := FindTrashed(old(trash), id);
        found.Some? && Restored(old(trash)[found.value].item).Some? ==>
          && items == old(items) + [Restored(old(trash)[found.value].item).value]
          && trash == Without(old(trash), found.value)
      ensures |items| + |trash| == old(|items| + |trash|)
      ensures logs == old(logs) && pgCounter == old(pgCounter) && logCounter == old(logCounter)
    {
      var found := FindTrashed(trash, id);
      if found.None? {
        return;
      }
      var k := found.value;
      var restored := Restored(trash[k].item);
      if restored.None? {
        return;
      }
      items := items + [restored.value];
      trash := Without(trash, k);
    }

    /** `permanentDeleteItem(id)`: the first trashed item with that id is
        dropped; the edit log keeps its entries. */
    method PermanentDeleteItem(id: string)
      requires Valid()
      modifies this
      ensures Valid()
      ensures FindTrashed(old(trash), id).None? ==> trash == old(trash)
      ensures FindTrashed(old(trash), id).Some? ==>
        trash == Without(old(trash), FindTrashed(old(trash), id).value)
      ensures items == old(items) && logs == old(logs)
      ensures pgCounter == old(pgCounter) && logCounter == old(logCounter)
    {
      var found := FindTrashed(trash, id);
      if found.Some? {
        trash := Without(trash, found.value);
      }
    }

    /** One data line of an import, numbered `index` among the data lines,
        with `sofar` the items so far: cut into cells, checked, and turned
        into a new item, drawing a serial once the duplicate check is
        passed. */
    method ImportLine(ctx: Context, headers: seq<string>, line: string, index: nat, sofar: seq<Item>)
      returns (row: Row)
      requires Valid()
      modifies this
      ensures Valid()
      ensures row == ReadRow(ctx, headers, line, sofar, old(pgCounter), ctx.uuid(index))
      ensures pgCounter == if DrawsSerial(row) then NextPg(old(pgCounter)) else old(pgCounter)
      ensures items == old(items) && trash == old(trash) && logs == old(logs)
      ensures logCounter == old(logCounter)
    {
      var values := SplitLine(line);
      values := CleanAll(values);
      if |values| != |headers| {
        return Mismatch;
      }
      var d := DraftOf(ctx, headers, values);
      if Trim(d.name) == [] {
        return Unnamed;
      }
      if Listed(sofar, d.name, d.serial) {
        return Duplicate(d.name + " (" + d.serial + ")");
      }
      var id := ctx.uuid(index);
      var serial := NextPgSerial();
      var end: Option<int> := None;
      if d.period.Some? {
        end := ComputeAdvance(d.buy, d.period.value, ImportStep(d.unit));
      }
      if end.None? {
        return Failed;
      }
      row := Accepted(Imported(ctx, d, d.period.value, end.value, id, serial));
    }

    /** `processCsvContent(content)`: `None` ("empty or has no data") and
        nothing changed for a file with fewer than two non-blank lines;
        otherwise every data line read in turn, the new items stored and the
        summary returned. */
    method ProcessCsvContent(ctx: Context, content: string) returns (summary: Option<Stats>)
      requires Valid()
      modifies this
      ensures Valid()
      ensures var o := ImportCsv(ctx, content, old(items), old(pgCounter));
        && (o.NoData? ==> summary.None? && items == old(items) && pgCounter == old(pgCounter))
        && (o.Done? ==> summary == Some(o.batch.stats) && items == o.batch.items && pgCounter == o.batch.counter)
      ensures trash == old(trash) && logs == old(logs) && logCounter == old(logCounter)
    {
      var lines := NonBlank(Split(content, {'\n'}));
      if |lines| < 2 {
        return None;
      }
      var data := lines[1..];
      var batch := ImportData(ctx, Headers(lines[0]), data);
      items := batch.items;
      summary := Some(batch.stats);
    }

    /** The data lines of an import read in turn, each with the items so far
        and the serial counter as the lines before left them. */
    method ImportData(ctx: Context, headers: seq<string>, data: seq<string>) returns (batch: Batch)
      requires Valid()
      modifies this
      ensures Valid()
      ensures batch == ImportRows(Reader(ctx, headers), data, 0, Batch(old(items), old(pgCounter), Stats(|data|, 0, 0, 0, [])))
      ensures pgCounter == batch.counter
      ensures items == old(items) && trash == old(trash) && logs == old(logs)
      ensures logCounter == old(logCounter)
    {
      batch := Batch(items, pgCounter, Stats(|data|, 0, 0, 0, []));
      ghost var read := Reader(ctx, headers);
      ghost var start := batch;
      var i := 0;
      while i < |data|
        invariant 0 <= i <= |data|
        invariant Valid() && batch.counter == pgCounter
        invariant items == old(items) && trash == old(trash) && logs == old(logs)
        invariant logCounter == old(logCounter)
        invariant ImportRows(read, data[i..], i, batch) == ImportRows(read, data, 0, start)
      {
        var row := ImportLine(ctx, headers, data[i], i, batch.items);
        assert row == read(batch.items, batch.counter, i, data[i]);
        assert data[i..][1..] == data[i + 1..];
        batch := Tally(batch, row);
        i := i + 1;
      }
    }
  }
}
