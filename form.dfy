/** The add/edit form and what pressing its save button decides: the checks
    in the order the handler makes them, the end date, and whether the save
    adds an item, updates one, finds nothing changed or is refused. The
    edit dialog's guard is here too. The current instant and the new item's
    id are parameters. */
module SaveForm {
  import opened Wrappers
  import opened Text
  import opened Calendar
  import opened Records
  import opened Identifiers
  import opened Period
  import opened Changes
  import opened Status

  /** What the form holds when the save button is pressed. `buyDate` is the
      value of the date input (`None` when it is empty); a number input is
      `None` when `Number` reads it as `NaN`. */
  datatype Form = Form(
    name: string,
    shop: string,
    kind: string,
    serial: string,
    buyDate: Option<Civil>,
    periodValue: Option<int>,
    periodUnit: string,
    remindDays: Option<int>,
    notes: string)

  /** Why a save is refused, in the order the handler checks. `SaveFailed`
      is the end date being an invalid date, which makes `toISOString`
      throw. */
  datatype SaveError =
    | ImportLocked | NameRequired | BuyDateRequired | PeriodNotPositive | PeriodTooLarge
    | ReminderOutOfRange | InvalidBuyDate | DuplicateItem | SaveFailed

  /** The values of a form that passed the checks. */
  datatype Entry = Entry(
    name: string,
    shop: string,
    kind: string,
    serial: string,
    buy: int,
    period: int,
    unit: string,
    remind: int,
    notes: string)

  /** The handler's checks, in order: a name, a buying date, a period from
      1 to 100, a reminder (`|| 30`) from 1 to 365, and a buying date that
      makes a valid `Date`. The text fields are trimmed; the unit is not. */
  function Validate(form: Form): (r: Result<Entry, SaveError>)
  {
    var name := Trim(form.name);
    var remind := ReminderWindow(form.remindDays);
    if name == [] then Err(NameRequired)
    else if form.buyDate.None? then Err(BuyDateRequired)
    else if form.periodValue.None? || form.periodValue.value <= 0 then Err(PeriodNotPositive)
    else if form.periodValue.value > 100 then Err(PeriodTooLarge)
    else if remind < 1 || remind > 365 then Err(ReminderOutOfRange)
    else
      var buy := DateOfInput(form.buyDate.value);
      if buy.None? then Err(InvalidBuyDate)
      else
        Ok(Entry(name, Trim(form.shop), Trim(form.kind), Trim(form.serial), buy.value,
                 form.periodValue.value, form.periodUnit, remind, Trim(form.notes)))
  }

  /** A form passes exactly when it has a name, a buying date that makes a
      valid date, a period from 1 to 100 and a reminder from 1 to 365; the
      entry then holds the trimmed text and those numbers. A missing name is
      reported before anything else. */
  lemma ValidateIff(form: Form)
    ensures Validate(form).Ok? <==>
      && Trim(form.name) != []
      && form.buyDate.Some? && DateOfInput(form.buyDate.value).Some?
      && form.periodValue.Some? && 1 <= form.periodValue.value <= 100
      && 1 <= ReminderWindow(form.remindDays) <= 365
    ensures Validate(form) == Err(NameRequired) <==> Trim(form.name) == []
    ensures Validate(form).Ok? ==>
      var e := Validate(form).value;
      && e.name == Trim(form.name) && IsTrimmed(e.name) && e.name != []
      && IsTrimmed(e.shop) && IsTrimmed(e.kind) && IsTrimmed(e.serial) && IsTrimmed(e.notes)
      && Some(e.buy) == DateOfInput(form.buyDate.value) && InRange(e.buy)
      && e.period == form.periodValue.value && e.unit == form.periodUnit
      && 1 <= e.remind <= 365
  {
    if Validate(form).Ok? {
      TrimIsTrimmed(form.name);
      TrimIsTrimmed(form.shop);
      TrimIsTrimmed(form.kind);
      TrimIsTrimmed(form.serial);
      TrimIsTrimmed(form.notes);
    }
  }

  /** The item an accepted edit stores in place of `before`: the form's
      values, with the id, the serial, the creation time and the import note
      kept, the edit time set, the edit count one more, and no import flag. */
  function EditedItem(before: Item, e: Entry, end: int, now: int): Item
  {
    Item(
      before.id, before.pgSerial, e.name, e.shop, e.kind, e.serial, At(e.buy), e.period, e.unit,
      At(end), Some(e.remind), e.notes, before.createdAt, At(now), before.editCount + 1,
      before.importMeta, false)
  }

  /** The item a successful add appends. */
  function NewItem(e: Entry, end: int, id: string, pgSerial: string, now: int): Item
  {
    Item(
      id, pgSerial, e.name, e.shop, e.kind, e.serial, At(e.buy), e.period, e.unit, At(end),
      Some(e.remind), e.notes, At(now), At(now), 0, None, false)
  }

  /** The add path's duplicate test: an item with the same name and a
      non-empty serial equal to the new one, ignoring case. */
  predicate FormDuplicate(items: seq<Item>, name: string, serial: string)
  {
    exists i :: 0 <= i < |items| && Lower(items[i].name) == Lower(name)
      && items[i].serial != [] && Lower(items[i].serial) == Lower(serial)
  }

  /** The item being edited is found and was imported. */
  predicate Locked(items: seq<Item>, id: string)
  {
    var found := FindIndex(items, id);
    found.Some? && IsItemImported(items[found.value])
  }

  /** What a save did. `Vanished` is an edit whose item is no longer in the
      list: the dialog closes and nothing changes. */
  datatype Saved =
    | Refused(error: SaveError)
    | Added(item: Item)
    | Updated(index: nat, item: Item, changes: seq<Change>)
    | Unchanged
    | Vanished

  /** The save handler on the items `items` with the serial counter at
      `counter`, editing the item with id `editing` or adding one. */
  ghost function SaveResult(items: seq<Item>, counter: int, editing: Option<string>, form: Form,
                            id: string, now: int): (r: Saved)
    ensures r.Updated? ==> r.index < |items|
  {
    if editing.Some? && Locked(items, editing.value) then Refused(ImportLocked)
    else
      var checked := Validate(form);
      if checked.Err? then Refused(checked.error)
      else
        var e := checked.value;
        var end := FormEndDate(e.buy, e.period, e.unit);
        if end.None? then Refused(SaveFailed)
        else if editing.Some? then
          var found := FindIndex(items, editing.value);
          if found.None? then Vanished
          else
            var before := items[found.value];
            var item := EditedItem(before, e, end.value, now);
            var changes := Diff(before, item);
            if changes == [] then Unchanged else Updated(found.value, item, changes)
        else if FormDuplicate(items, e.name, e.serial) then Refused(DuplicateItem)
        else Added(NewItem(e, end.value, id, PgSerialText(NextPg(counter)), now))
  }

  /** The outcome of an edit that passed the checks, its item found at
      `k`. */
  lemma EditOutcome(items: seq<Item>, counter: int, editing: string, form: Form, id: string,
                    now: int, e: Entry, k: nat)
    requires !Locked(items, editing) && Validate(form) == Ok(e)
    requires FormEndDate(e.buy, e.period, e.unit).Some? && FindIndex(items, editing) == Some(k)
    ensures var item := EditedItem(items[k], e, FormEndDate(e.buy, e.period, e.unit).value, now);
      SaveResult(items, counter, Some(editing), form, id, now)
        == if Diff(items[k], item) == [] then Unchanged else Updated(k, item, Diff(items[k], item))
  {
  }

  /** The outcome of an add that passed the checks. */
  lemma AddOutcome(items: seq<Item>, counter: int, form: Form, id: string, now: int, e: Entry)
    requires Validate(form) == Ok(e) && FormEndDate(e.buy, e.period, e.unit).Some?
    ensures SaveResult(items, counter, None, form, id, now)
      == if FormDuplicate(items, e.name, e.serial) then Refused(DuplicateItem)
         else Added(NewItem(e, FormEndDate(e.buy, e.period, e.unit).value, id, PgSerialText(NextPg(counter)), now))
  {
  }

  /** Editing an imported item is refused before the form is looked at. */
  lemma ImportedNotEditable(items: seq<Item>, counter: int, editing: string, form: Form,
                            id: string, now: int)
    requires FindIndex(items, editing).Some? && IsItemImported(items[FindIndex(items, editing).value])
    ensures SaveResult(items, counter, Some(editing), form, id, now) == Refused(ImportLocked)
  {
  }

  /** An add appends a fresh item: it passed the checks, its end date is
      valid and not before its buying date, no item has its name and
      serial, it takes the next serial, and it is new, unedited and not
      imported. Conversely, a valid form with a valid end date and no
      duplicate is always added. */
  lemma AddedItem(items: seq<Item>, counter: int, form: Form, id: string, now: int)
    ensures var r := SaveResult(items, counter, None, form, id, now);
      r.Added? ==>
        && Validate(form).Ok?
        && var e := Validate(form).value;
        && r.item.name == e.name && r.item.serial == e.serial
        && !FormDuplicate(items, r.item.name, r.item.serial)
        && r.item.id == id && r.item.pgSerial == PgSerialText(NextPg(counter))
        && r.item.buyDate == At(e.buy) && r.item.endDate.At? && r.item.endDate.ms >= e.buy
        && r.item.createdAt == At(now) && r.item.lastEdited == At(now)
        && r.item.editCount == 0 && r.item.importMeta.None? && !r.item.isImported
    ensures Validate(form).Ok? ==>
      var e := Validate(form).value;
      FormEndDate(e.buy, e.period, e.unit).Some? && !FormDuplicate(items, e.name, e.serial) ==>
        SaveResult(items, counter, None, form, id, now).Added?
  {
    if Validate(form).Ok? {
      var e := Validate(form).value;
      FormEndNotEarlier(e.buy, e.period, e.unit);
    }
  }

  /** An accepted edit replaces the item found under the edited id with
      one that keeps its id, serial, creation time and import note, counts
      one more edit and drops the import flag; its change list is the
      comparison of the two and is not empty. */
  lemma EditKeepsIdentity(items: seq<Item>, counter: int, editing: string, form: Form,
                          id: string, now: int)
    ensures var r := SaveResult(items, counter, Some(editing), form, id, now);
      r.Updated? ==>
        && FindIndex(items, editing) == Some(r.index)
        && var before := items[r.index];
        && !IsItemImported(before)
        && r.item.id == before.id == editing
        && r.item.pgSerial == before.pgSerial
        && r.item.createdAt == before.createdAt
        && r.item.importMeta == before.importMeta
        && r.item.editCount == before.editCount + 1
        && r.item.lastEdited == At(now) && !r.item.isImported
        && r.changes != [] && r.changes == Diff(before, r.item)
  {
    var r := SaveResult(items, counter, Some(editing), form, id, now);
    if r.Updated? {
      var e := Validate(form).value;
      var end := FormEndDate(e.buy, e.period, e.unit);
      var k := FindIndex(items, editing).value;
      var item := EditedItem(items[k], e, end.value, now);
      assert r == Updated(k, item, Diff(items[k], item));
    }
  }

  /** The change list of an accepted edit lists exactly the changed
      fields, once each and in comparison order, with their old and new
      values. */
  lemma EditChangesListed(items: seq<Item>, counter: int, editing: string, form: Form,
                          id: string, now: int)
    ensures var r := SaveResult(items, counter, Some(editing), form, id, now);
      r.Updated? ==>
        var before := items[r.index];
        && Faithful(r.changes, before, r.item) && Ordered(r.changes)
        && (forall f :: Changed(f, before, r.item) <==> Lists(r.changes, f))
  {
    var r := SaveResult(items, counter, Some(editing), form, id, now);
    if r.Updated? {
      EditKeepsIdentity(items, counter, editing, form, id, now);
      DiffCorrect(items[r.index], r.item);
    }
  }

  /** An edit of a found item that passes the checks is reported as
      unchanged exactly when no compared field differs. */
  lemma UnchangedIff(items: seq<Item>, counter: int, editing: string, form: Form,
                     id: string, now: int)
    requires !Locked(items, editing) && FindIndex(items, editing).Some? && Validate(form).Ok?
    requires var e := Validate(form).value; FormEndDate(e.buy, e.period, e.unit).Some?
    ensures var e := Validate(form).value;
      var before := items[FindIndex(items, editing).value];
      var item := EditedItem(before, e, FormEndDate(e.buy, e.period, e.unit).value, now);
      (SaveResult(items, counter, Some(editing), form, id, now) == Unchanged)
      <==> (forall f :: !Changed(f, before, item))
  {
    var e := Validate(form).value;
    var before := items[FindIndex(items, editing).value];
    NoChangesIff(before, EditedItem(before, e, FormEndDate(e.buy, e.period, e.unit).value, now));
  }

  /** The save handler itself does not enforce the edit limit: an item
      edited twice already is still updated, to a third edit, when the save
      is reached. */
  lemma EditLimitOnlyInDialog(items: seq<Item>, counter: int, editing: string, form: Form,
                              id: string, now: int)
    requires FindIndex(items, editing).Some?
    requires var before := items[FindIndex(items, editing).value];
      !IsItemImported(before) && before.editCount >= EditLimit
    requires Validate(form).Ok?
    requires var e := Validate(form).value; FormEndDate(e.buy, e.period, e.unit).Some?
    requires var e := Validate(form).value;
      Diff(items[FindIndex(items, editing).value],
           EditedItem(items[FindIndex(items, editing).value], e, FormEndDate(e.buy, e.period, e.unit).value, now)) != []
    ensures var r := SaveResult(items, counter, Some(editing), form, id, now);
      r.Updated? && r.item.editCount > EditLimit && !EditAllowed(items[r.index])
  {
  }

  /** What the edit dialog does with the item of `id`. */
  datatype Dialog = NotFound | ImportedReadOnly | LimitReached | Editable

  /** The edit dialog's guard: an imported item opens read-only; an item
      edited twice or more opens with the save button disabled. */
  function EditDialog(items: seq<Item>, id: string): Dialog
  {
    var found := FindIndex(items, id);
    if found.None? then NotFound
    else
      var item := items[found.value];
      if IsItemImported(item) then ImportedReadOnly
      else if item.editCount >= EditLimit then LimitReached
      else Editable
  }

  /** The dialog lets the item be saved exactly when the item is found and
      edits are allowed on it: not imported, edited fewer than two times. */
  lemma EditDialogIff(items: seq<Item>, id: string)
    ensures EditDialog(items, id) == Editable <==>
      FindIndex(items, id).Some? && EditAllowed(items[FindIndex(items, id).value])
    ensures EditDialog(items, id) == ImportedReadOnly ==> Locked(items, id)
  {
  }
}
