/** The CSV import: how one data line becomes a new item, a duplicate, or
    an error, and how the whole file is folded into the item list and the
    import summary. The current instant, the native date parser, the
    rendering of today's date and the random ids are parameters. */
module Import {
  import opened Wrappers
  import opened Text
  import opened Calendar
  import opened Records
  import opened Identifiers
  import opened Period
  import opened Csv
  import Status

  /** The column names each item property is read from, in the order the
      import tries them. */
  const NameKeys: seq<string> := ["name", "Name", "Product", "product"]
  const SerialKeys: seq<string> := ["serial", "Serial", "Serial Number", "serial_number"]
  const NotesKeys: seq<string> :=
    ["notes", "Note", "Notes", "Description", "description", "Comments", "comments"]
  const BuyDateKeys: seq<string> :=
    ["buyDate", "buy_date", "purchaseDate", "date", "Date", "purchase_date"]
  const PeriodKeys: seq<string> := ["periodValue", "period_value", "period", "duration"]
  const UnitKeys: seq<string> := ["periodUnit", "period_unit", "unit", "PeriodUnit"]
  const ShopKeys: seq<string> := ["shop", "Shop", "store", "Store", "vendor"]
  const KindKeys: seq<string> := ["kind", "Kind", "type", "Type", "warranty_type"]
  const RemindKeys: seq<string> := ["remindDays", "remind_days", "reminder", "notify_before"]

  /** The note every imported item carries, before the import date. */
  const ImportNote := "Imported from CSV"

  /** What the import takes from its surroundings: the current instant,
      `new Date(text)` on a date string (`None` for an invalid date), the
      `formatDatePretty` rendering of today, and the id
      `crypto.randomUUID()` gives the item of each data line. */
  datatype Context = Context(
    now: int,
    parse: string -> Option<int>,
    today: string,
    uuid: nat -> string)

  /** Column `i` is the last one named `key`. */
  predicate LastAt(headers: seq<string>, key: string, i: int)
  {
    0 <= i < |headers| && headers[i] == key
    && forall j :: i < j < |headers| ==> headers[j] != key
  }

  /** `itemData[key]` after `itemData[header] = value` for every column in
      turn: the value of the last column named `key`, or `None`
      (`undefined`) when no column has that name. */
  function Lookup(headers: seq<string>, values: seq<string>, key: string): Option<string>
    requires |headers| == |values|
  {
    if headers == [] then None
    else
      var n := |headers| - 1;
      if headers[n] == key then Some(values[n])
      else Lookup(headers[..n], values[..n], key)
  }

  /** The lookup finds a value exactly when a column has the name, and then
      it is the value of the last such column. */
  lemma {:induction false} LookupLast(headers: seq<string>, values: seq<string>, key: string)
    requires |headers| == |values|
    ensures Lookup(headers, values, key).Some? <==> key in headers
    ensures Lookup(headers, values, key).Some? ==>
      exists i :: LastAt(headers, key, i) && values[i] == Lookup(headers, values, key).value
  {
    if headers != [] {
      var n := |headers| - 1;
      if headers[n] == key {
        assert LastAt(headers, key, n);
      } else {
        var r := Lookup(headers[..n], values[..n], key);
        LookupLast(headers[..n], values[..n], key);
        if key in headers {
          var i :| 0 <= i < |headers| && headers[i] == key;
          assert headers[..n][i] == key;
        }
        if r.Some? {
          var i :| LastAt(headers[..n], key, i) && values[..n][i] == r.value;
          assert LastAt(headers, key, i);
        }
      }
    }
  }

  /** A looked-up value JavaScript treats as true: present and non-empty. */
  predicate Filled(v: Option<string>)
  {
    v.Some? && v.value != []
  }

  /** Key `keys[k]` is the first of `keys` with a filled value, and that
      value is `r`. */
  predicate FirstFilled(headers: seq<string>, values: seq<string>, keys: seq<string>, k: int, r: string)
    requires |headers| == |values|
  {
    0 <= k < |keys| && Lookup(headers, values, keys[k]) == Some(r) && r != []
    && forall j :: 0 <= j < k ==> !Filled(Lookup(headers, values, keys[j]))
  }

  /** `itemData[keys[0]] || itemData[keys[1]] || ... || default`. */
  function Pick(headers: seq<string>, values: seq<string>, keys: seq<string>, default: string): string
    requires |headers| == |values|
  {
    if keys == [] then default
    else
      var x := Lookup(headers, values, keys[0]);
      if Filled(x) then x.value else Pick(headers, values, keys[1..], default)
  }

  /** The chain yields the value of the first key with a filled value, or
      the default when no key has one. */
  lemma {:induction false} PickFirst(headers: seq<string>, values: seq<string>, keys: seq<string>, default: string)
    requires |headers| == |values|
    ensures var r := Pick(headers, values, keys, default);
      || (exists k :: FirstFilled(headers, values, keys, k, r))
      || (r == default && forall k :: 0 <= k < |keys| ==> !Filled(Lookup(headers, values, keys[k])))
  {
    if keys != [] {
      var x := Lookup(headers, values, keys[0]);
      if Filled(x) {
        assert FirstFilled(headers, values, keys, 0, x.value);
      } else {
        var r := Pick(headers, values, keys[1..], default);
        PickFirst(headers, values, keys[1..], default);
        if exists k :: FirstFilled(headers, values, keys[1..], k, r) {
          var k :| FirstFilled(headers, values, keys[1..], k, r);
          assert FirstFilled(headers, values, keys, k + 1, r);
        } else {
          forall k | 0 <= k < |keys| ensures !Filled(Lookup(headers, values, keys[k])) {
            if k > 0 { assert keys[k] == keys[1..][k - 1]; }
          }
        }
      }
    }
  }

  /** A value picked from trimmed cells, or a trimmed default, is trimmed. */
  lemma PickTrimmed(headers: seq<string>, values: seq<string>, keys: seq<string>, default: string)
    requires |headers| == |values|
    requires forall i :: 0 <= i < |values| ==> IsTrimmed(values[i])
    requires IsTrimmed(default)
    ensures IsTrimmed(Pick(headers, values, keys, default))
  {
    var r := Pick(headers, values, keys, default);
    PickFirst(headers, values, keys, default);
    if exists k :: FirstFilled(headers, values, keys, k, r) {
      var k :| FirstFilled(headers, values, keys, k, r);
      LookupLast(headers, values, keys[k]);
      var i :| LastAt(headers, keys[k], i) && values[i] == r;
    }
  }

  /** `periodUnit.charAt(0).toUpperCase() + periodUnit.slice(1).toLowerCase()`. */
  function TitleCase(u: string): (r: string)
    ensures |r| == |u|
  {
    if u == [] then [] else [UpperChar(u[0])] + Lower(u[1..])
  }

  /** The stored unit selects the same step as the unit it was read from,
      so the period means the same when the item is imported again. */
  lemma TitleCaseSameStep(u: string)
    ensures Lower(TitleCase(u)) == Lower(u)
    ensures ImportStep(TitleCase(u)) == ImportStep(u)
  {
    var t := TitleCase(u);
    forall i | 0 <= i < |u| ensures LowerChar(t[i]) == LowerChar(u[i]) {
      if i > 0 {
        assert t[i] == Lower(u[1..])[i - 1] == LowerChar(u[i]);
      }
    }
  }

  /** The fallback reading of a date: split at `/`, `-` or `.` into
      exactly three parts read with `parseInt` as day, month and year of a
      local date. */
  function DayFirstDate(s: string): Option<int>
  {
    var read := ReadDayMonthYear(Split(s, {'/', '-', '.'}));
    if read.Some? then LocalDate(read.value.year, read.value.month - 1, read.value.day) else None
  }

  datatype DayMonthYear = DayMonthYear(day: int, month: int, year: int)

  /** Exactly three parts, each read with `parseInt`; `None` when one of
      them is `NaN`. */
  function ReadDayMonthYear(parts: seq<string>): Option<DayMonthYear>
  {
    if |parts| == 3 then
      var day, month, year := ParseInt(parts[0]), ParseInt(parts[1]), ParseInt(parts[2]);
      if day.Some? && month.Some? && year.Some? then Some(DayMonthYear(day.value, month.value, year.value))
      else None
    else None
  }

  /** The buying date of an imported row: the native reading of the text;
      failing that, the day-first reading; failing that, or with no text,
      now. */
  function BuyDateOf(ctx: Context, s: string): (r: int)
    ensures InRange(ctx.now) ==> InRange(r)
    ensures s == [] ==> r == ctx.now
  {
    if s == [] then ctx.now
    else
      var native := ctx.parse(s);
      if native.Some? && InRange(native.value) then native.value
      else
        var local := DayFirstDate(s);
        if local.Some? then local.value else ctx.now
  }

  /** Date separators are not digits. */
  lemma DigitsHoldNoSeparator(s: string)
    requires AllDigits(s, 10)
    ensures forall i :: 0 <= i < |s| ==> s[i] !in {'/', '-', '.'}
  {
    forall i | 0 <= i < |s| ensures s[i] !in {'/', '-', '.'} {
      assert IsDigit(s[i], 10);
    }
  }

  /** A date written as day, month and year in digits with a `/` between
      them is read day first: "15/01/2024" is 15 January 2024. */
  lemma DayFirst(day: string, month: string, year: string)
    requires day != [] && month != [] && year != []
    requires AllDigits(day, 10) && AllDigits(month, 10) && AllDigits(year, 10)
    ensures DayFirstDate(day + "/" + month + "/" + year)
      == LocalDate(NumeralValue(year, 10), NumeralValue(month, 10) - 1, NumeralValue(day, 10))
  {
    var parts := Split(day + "/" + month + "/" + year, {'/', '-', '.'});
    SplitDate(day, month, year);
    ParseDigits(day);
    ParseDigits(month);
    ParseDigits(year);
    assert ReadDayMonthYear(parts)
      == Some(DayMonthYear(NumeralValue(day, 10), NumeralValue(month, 10), NumeralValue(year, 10)));
  }

  lemma SplitDate(day: string, month: string, year: string)
    requires AllDigits(day, 10) && AllDigits(month, 10) && AllDigits(year, 10)
    ensures Split(day + "/" + month + "/" + year, {'/', '-', '.'}) == [day, month, year]
  {
    var seps := {'/', '-', '.'};
    DigitsHoldNoSeparator(day);
    DigitsHoldNoSeparator(month);
    DigitsHoldNoSeparator(year);
    assert day + "/" + month + "/" + year == day + ['/'] + (month + ['/'] + year);
    SplitAfter(day, '/', month + ['/'] + year, seps);
    SplitAfter(month, '/', year, seps);
    SplitNone(year, seps);
  }

  /** The native reading wins when it gives a date; the day-first reading
      is used only when it does not. */
  lemma BuyDatePrecedence(ctx: Context, s: string)
    requires s != []
    ensures ctx.parse(s).Some? && InRange(ctx.parse(s).value) ==> BuyDateOf(ctx, s) == ctx.parse(s).value
    ensures ctx.parse(s).None? && DayFirstDate(s).Some? ==> BuyDateOf(ctx, s) == DayFirstDate(s).value
    ensures ctx.parse(s).None? && DayFirstDate(s).None? ==> BuyDateOf(ctx, s) == ctx.now
  {
  }

  /** The fields of a data row before the end date is computed. */
  datatype Draft = Draft(
    name: string,
    serial: string,
    notes: string,
    shop: string,
    kind: string,
    buy: int,
    period: Option<int>,
    unit: string,
    remind: Option<int>)

  /** Reads the item properties of a row from its cells. */
  function DraftOf(ctx: Context, headers: seq<string>, values: seq<string>): (d: Draft)
    requires |headers| == |values|
    ensures InRange(ctx.now) ==> InRange(d.buy)
  {
    Draft(
      Pick(headers, values, NameKeys, ""),
      Pick(headers, values, SerialKeys, ""),
      Pick(headers, values, NotesKeys, ""),
      Pick(headers, values, ShopKeys, ""),
      Pick(headers, values, KindKeys, "Warranty"),
      BuyDateOf(ctx, Pick(headers, values, BuyDateKeys, "")),
      NumberValue(Pick(headers, values, PeriodKeys, "1")),
      Pick(headers, values, UnitKeys, "Years"),
      NumberValue(Pick(headers, values, RemindKeys, "30")))
  }

  /** The import's duplicate test: an item with the same name and the same
      serial, ignoring case. */
  predicate SameKey(item: Item, name: string, serial: string)
  {
    Lower(item.name) == Lower(name) && Lower(item.serial) == Lower(serial)
  }

  predicate Listed(items: seq<Item>, name: string, serial: string)
  {
    exists i :: 0 <= i < |items| && SameKey(items[i], name, serial)
  }

  /** What became of one data line. `Failed` is a row that threw after it
      had drawn a serial: its period made the end date invalid. */
  datatype Row = Mismatch | Unnamed | Duplicate(description: string) | Failed | Accepted(item: Item)

  /** The new item built from a row whose end date is `end`. */
  function Imported(ctx: Context, d: Draft, period: int, end: int, id: string, pgSerial: string): (item: Item)
  {
    Item(
      id, pgSerial, Trim(d.name), Trim(d.shop), Trim(d.kind), Trim(d.serial),
      At(d.buy), period, TitleCase(d.unit), At(end), d.remind, Trim(d.notes),
      At(ctx.now), At(ctx.now), 0, Some(ImportNote + " \U{2022} " + ctx.today), true)
  }

  /** The fate of one data line, the serial counter standing at `counter`
      and `items` holding the items so far (those of earlier lines
      included). */
  ghost function ReadRow(ctx: Context, headers: seq<string>, line: string, items: seq<Item>,
                         counter: int, id: string): Row
  {
    var values := CleanAll(SplitFields(line));
    if |values| != |headers| then Mismatch
    else
      var d := DraftOf(ctx, headers, values);
      if Trim(d.name) == [] then Unnamed
      else if Listed(items, d.name, d.serial) then Duplicate(d.name + " (" + d.serial + ")")
      else
        var end := if d.period.Some? then ImportEndDate(d.buy, d.period.value, d.unit) else None;
        if end.None? then Failed
        else Accepted(Imported(ctx, d, d.period.value, end.value, id, PgSerialText(NextPg(counter))))
  }

  /** `values.map(clean)`. */
  function CleanAll(values: seq<string>): (r: seq<string>)
    ensures |r| == |values|
  {
    if values == [] then [] else [Clean(values[0])] + CleanAll(values[1..])
  }

  /** The import summary. */
  datatype Stats = Stats(total: nat, added: nat, duplicates: nat, errors: nat, duplicateItems: seq<string>)

  /** The items, the serial counter and the summary as the import goes. */
  datatype Batch = Batch(items: seq<Item>, counter: int, stats: Stats)

  /** Whether the row drew a serial from the counter. */
  predicate DrawsSerial(r: Row)
  {
    r.Failed? || r.Accepted?
  }

  /** The batch after one row. */
  function Tally(b: Batch, r: Row): Batch
  {
    var s := b.stats;
    var counter := if DrawsSerial(r) then NextPg(b.counter) else b.counter;
    match r
    case Accepted(item) => Batch(b.items + [item], counter, s.(added := s.added + 1))
    case Duplicate(description) =>
      Batch(b.items, counter, s.(duplicates := s.duplicates + 1, duplicateItems := s.duplicateItems + [description]))
    case _ => Batch(b.items, counter, s.(errors := s.errors + 1))
  }

  predicate CounterInRange(b: Batch)
  {
    PgFirst <= b.counter <= PgLast
  }

  /** How a data line is read, given the items so far, the serial counter
      and the line's number. */
  type RowReader = (seq<Item>, int, nat, string) -> Row

  /** The data lines `lines`, the first of them line number `index`,
      folded into `b`, each read by `read`. */
  function ImportRows(read: RowReader, lines: seq<string>, index: nat, b: Batch): (r: Batch)
    ensures CounterInRange(b) ==> CounterInRange(r)
    decreases |lines|
  {
    if lines == [] then b
    else
      var row := read(b.items, b.counter, index, lines[0]);
      TallyInRange(b, row);
      ImportRows(read, lines[1..], index + 1, Tally(b, row))
  }

  lemma TallyInRange(b: Batch, row: Row)
    ensures CounterInRange(b) ==> CounterInRange(Tally(b, row))
  {
  }

  /** The import's reading of a data line under `headers`. */
  ghost function Reader(ctx: Context, headers: seq<string>): RowReader
  {
    (items: seq<Item>, counter: int, index: nat, line: string) =>
      ReadRow(ctx, headers, line, items, counter, ctx.uuid(index))
  }

  /** `csvContent.split('\n')` without the blank lines. */
  function NonBlank(lines: seq<string>): (r: seq<string>)
    ensures |r| <= |lines|
    ensures forall k :: 0 <= k < |r| ==> Trim(r[k]) != []
  {
    if lines == [] then []
    else if Trim(lines[0]) == [] then NonBlank(lines[1..])
    else [lines[0]] + NonBlank(lines[1..])
  }

  /** The column names: the first line cut at commas, every name trimmed. */
  function Headers(line: string): seq<string>
  {
    TrimAll(Split(line, {','}))
  }

  /** The outcome of an import: nothing done for a file with fewer than two
      non-blank lines, otherwise the new batch. */
  datatype Outcome = NoData | Done(batch: Batch)

  /** `processCsvContent(content)` on the items `items` with the serial
      counter at `counter`. */
  ghost function ImportCsv(ctx: Context, content: string, items: seq<Item>, counter: int): (o: Outcome)
    ensures o.Done? && PgFirst <= counter <= PgLast ==> CounterInRange(o.batch)
  {
    var lines := NonBlank(Split(content, {'\n'}));
    if |lines| < 2 then NoData
    else
      var data := lines[1..];
      Done(ImportRows(Reader(ctx, Headers(lines[0])), data, 0, Batch(items, counter, Stats(|data|, 0, 0, 0, []))))
  }

  /** The clean-up leaves fields that need none as they are. */
  lemma {:induction false} CleanAllFixed(values: seq<string>)
    requires forall k :: 0 <= k < |values| ==> Clean(values[k]) == values[k]
    ensures CleanAll(values) == values
  {
    if values != [] {
      CleanAllFixed(values[1..]);
      assert [values[0]] + values[1..] == values;
    }
  }

  /** Every cell of a data row is trimmed. */
  lemma CellsTrimmed(line: string)
    ensures CleanAll(SplitFields(line)) == SplitFields(line)
    ensures forall k :: 0 <= k < |SplitFields(line)| ==> IsTrimmed(SplitFields(line)[k])
  {
    var fields := SplitFields(line);
    var pieces := Scan(line, false, []);
    CleanIsIdentity(line);
    CleanAllFixed(fields);
    forall k | 0 <= k < |fields| ensures IsTrimmed(fields[k]) {
      TrimAllAt(pieces, k);
      TrimIsTrimmed(pieces[k]);
    }
  }

  /** An imported item: flagged, never edited, created now, with the
      import note that marks it as imported. */
  predicate ImportedNow(ctx: Context, item: Item)
  {
    && item.isImported && item.editCount == 0 && Status.IsItemImported(item)
    && item.createdAt == At(ctx.now) && item.lastEdited == At(ctx.now)
  }

  /** The import note is recognised as one. */
  lemma ImportNoteRecognised(today: string)
    ensures Contains(ImportNote + " \U{2022} " + today, "Imported from CSV")
  {
    assert ImportNote + " \U{2022} " + today == ImportNote + (" \U{2022} " + today);
    ContainsPrefix(ImportNote, " \U{2022} " + today);
  }

  /** A row is added only when no item so far has its name and serial
      (ignoring case); the new item is imported, has both dates, and takes
      the serial after `counter`. */
  lemma AcceptedRow(ctx: Context, headers: seq<string>, line: string, items: seq<Item>, counter: int, id: string)
    ensures var row := ReadRow(ctx, headers, line, items, counter, id);
      row.Accepted? ==>
        && !Listed(items, row.item.name, row.item.serial)
        && Trim(row.item.name) != []
        && row.item.id == id && row.item.pgSerial == PgSerialText(NextPg(counter))
        && row.item.buyDate.At? && row.item.endDate.At?
        && ImportedNow(ctx, row.item)
  {
    var row := ReadRow(ctx, headers, line, items, counter, id);
    if row.Accepted? {
      var values := CleanAll(SplitFields(line));
      CellsTrimmed(line);
      var d := DraftOf(ctx, headers, values);
      PickTrimmed(headers, values, NameKeys, "");
      PickTrimmed(headers, values, SerialKeys, "");
      TrimmedFixed(d.name);
      TrimmedFixed(d.serial);
      ImportNoteRecognised(ctx.today);
    }
  }

  /** Later items never repeat the name and serial of an earlier one, from
      position `start` on. */
  predicate FreshKeys(items: seq<Item>, start: nat)
  {
    forall j, i :: start <= j < |items| && 0 <= i < j ==> !SameKey(items[i], items[j].name, items[j].serial)
  }

  /** Every data line is counted once: as added, as a duplicate, or as an
      error; the summary lists one entry per duplicate. */
  lemma {:induction false} ImportBalance(read: RowReader, lines: seq<string>, index: nat, b: Batch)
    ensures var r := ImportRows(read, lines, index, b);
      && r.stats.total == b.stats.total
      && r.stats.added + r.stats.duplicates + r.stats.errors
         == b.stats.added + b.stats.duplicates + b.stats.errors + |lines|
      && |r.stats.duplicateItems| - |b.stats.duplicateItems| == r.stats.duplicates - b.stats.duplicates
  {
    if lines != [] {
      var row := read(b.items, b.counter, index, lines[0]);
      ImportBalance(read, lines[1..], index + 1, Tally(b, row));
    }
  }

  /** A reader that adds only new imported items whose name and serial no
      item so far has. */
  ghost predicate SoundReader(read: RowReader, ctx: Context)
  {
    forall items, counter, index, line ::
      read(items, counter, index, line).Accepted? ==>
        && ImportedNow(ctx, read(items, counter, index, line).item)
        && !Listed(items, read(items, counter, index, line).item.name, read(items, counter, index, line).item.serial)
  }

  /** The import's reader is sound. */
  lemma ReaderSound(ctx: Context, headers: seq<string>)
    ensures SoundReader(Reader(ctx, headers), ctx)
  {
    var read := Reader(ctx, headers);
    forall items, counter, index, line | read(items, counter, index, line).Accepted?
      ensures ImportedNow(ctx, read(items, counter, index, line).item)
      ensures !Listed(items, read(items, counter, index, line).item.name, read(items, counter, index, line).item.serial)
    {
      AcceptedRow(ctx, headers, line, items, counter, ctx.uuid(index));
    }
  }

  /** The import only appends: one imported item per added row, after the
      items there were. */
  lemma {:induction false} ImportAppends(read: RowReader, ctx: Context, lines: seq<string>, index: nat, b: Batch)
    requires SoundReader(read, ctx)
    ensures var r := ImportRows(read, lines, index, b);
      && |b.items| <= |r.items| && r.items[..|b.items|] == b.items
      && |r.items| - |b.items| == r.stats.added - b.stats.added
      && forall j :: |b.items| <= j < |r.items| ==> ImportedNow(ctx, r.items[j])
  {
    if lines != [] {
      var row := read(b.items, b.counter, index, lines[0]);
      var next := Tally(b, row);
      ImportAppends(read, ctx, lines[1..], index + 1, next);
      var r := ImportRows(read, lines[1..], index + 1, next);
      assert r.items[..|next.items|][..|b.items|] == r.items[..|b.items|];
      if row.Accepted? {
        assert next.items[|b.items|] == row.item;
        assert r.items[|b.items|] == r.items[..|next.items|][|b.items|];
      }
    }
  }

  /** No added item repeats the name and serial (ignoring case) of an item
      before it, whether it was there before the import or added earlier
      in it. */
  lemma {:induction false} ImportNoDuplicates(read: RowReader, ctx: Context, lines: seq<string>, index: nat, b: Batch, start: nat)
    requires SoundReader(read, ctx)
    requires start <= |b.items| && FreshKeys(b.items, start)
    ensures FreshKeys(ImportRows(read, lines, index, b).items, start)
  {
    if lines != [] {
      var row := read(b.items, b.counter, index, lines[0]);
      var next := Tally(b, row);
      if row.Accepted? {
        var items := b.items + [row.item];
        assert !Listed(b.items, row.item.name, row.item.serial);
        forall j, i | start <= j < |items| && 0 <= i < j
          ensures !SameKey(items[i], items[j].name, items[j].serial)
        {
          if j < |b.items| {
            assert items[i] == b.items[i] && items[j] == b.items[j];
          } else {
            assert items[i] == b.items[i] && items[j] == row.item;
          }
        }
      }
      ImportNoDuplicates(read, ctx, lines[1..], index + 1, next, start);
    }
  }

  /** A data line with the right number of cells and a name, whose name
      and serial (ignoring case) an item of `items` already has. */
  predicate ListedRow(ctx: Context, headers: seq<string>, line: string, items: seq<Item>)
  {
    var values := CleanAll(SplitFields(line));
    && |values| == |headers|
    && var d := DraftOf(ctx, headers, values);
    && Trim(d.name) != [] && Listed(items, d.name, d.serial)
  }

  /** A data line with the right number of cells and a name, not listed in
      `items`, whose period gives a valid end date. */
  ghost predicate AcceptableRow(ctx: Context, headers: seq<string>, line: string, items: seq<Item>)
  {
    var values := CleanAll(SplitFields(line));
    && |values| == |headers|
    && var d := DraftOf(ctx, headers, values);
    && Trim(d.name) != [] && !Listed(items, d.name, d.serial)
    && d.period.Some? && ImportEndDate(d.buy, d.period.value, d.unit).Some?
  }

  /** Every data line falls in exactly one class: a wrong number of cells,
      no name, a duplicate of an item so far, an invalid end date, or a new
      item. */
  lemma RowClassified(ctx: Context, headers: seq<string>, line: string, items: seq<Item>,
                      counter: int, id: string)
    ensures var values := CleanAll(SplitFields(line));
      var row := ReadRow(ctx, headers, line, items, counter, id);
      && (row.Mismatch? <==> |values| != |headers|)
      && (|values| == |headers| ==>
        var d := DraftOf(ctx, headers, values);
        && (row.Unnamed? <==> Trim(d.name) == [])
        && (row.Duplicate? <==> Trim(d.name) != [] && Listed(items, d.name, d.serial))
        && (row.Duplicate? ==> row.description == d.name + " (" + d.serial + ")")
        && (row.Accepted? <==> AcceptableRow(ctx, headers, line, items))
        && (row.Failed? <==>
              Trim(d.name) != [] && !Listed(items, d.name, d.serial) && !AcceptableRow(ctx, headers, line, items)))
  {
  }

  /** A row the summary counts as an error. */
  predicate IsError(r: Row)
  {
    r.Mismatch? || r.Unnamed? || r.Failed?
  }

  predicate IsDuplicate(r: Row)
  {
    r.Duplicate?
  }

  predicate IsAccepted(r: Row)
  {
    r.Accepted?
  }

  /** One step of an import: the batch before a data line, and the row the
      line is read as. */
  datatype Step = Step(before: Batch, row: Row)

  /** The steps of folding `lines` into `b`. */
  function Trace(read: RowReader, lines: seq<string>, index: nat, b: Batch): (t: seq<Step>)
    ensures |t| == |lines|
    decreases |lines|
  {
    if lines == [] then []
    else
      var row := read(b.items, b.counter, index, lines[0]);
      [Step(b, row)] + Trace(read, lines[1..], index + 1, Tally(b, row))
  }

  /** The number of steps whose row satisfies `p`. */
  function CountRows(t: seq<Step>, p: Row -> bool): (n: nat)
    ensures n <= |t|
  {
    if t == [] then 0 else (if p(t[0].row) then 1 else 0) + CountRows(t[1..], p)
  }

  /** The trace starts from `b`, reads each line with the batch the lines
      before it left, and the summary counts its rows by kind. */
  lemma {:induction false} TraceSteps(read: RowReader, lines: seq<string>, index: nat, b: Batch)
    ensures var t := Trace(read, lines, index, b);
      && (|t| > 0 ==> t[0].before == b)
      && (forall k :: 0 <= k < |t| ==>
            t[k].row == read(t[k].before.items, t[k].before.counter, index + k, lines[k]))
      && (forall k :: 0 <= k < |t| - 1 ==> t[k + 1].before == Tally(t[k].before, t[k].row))
    decreases |lines|
  {
    if lines != [] {
      var row := read(b.items, b.counter, index, lines[0]);
      var t := Trace(read, lines, index, b);
      var rest := Trace(read, lines[1..], index + 1, Tally(b, row));
      TraceSteps(read, lines[1..], index + 1, Tally(b, row));
      assert t == [Step(b, row)] + rest;
      forall k | 1 <= k < |t|
        ensures t[k].row == read(t[k].before.items, t[k].before.counter, index + k, lines[k])
      {
        assert t[k] == rest[k - 1] && lines[k] == lines[1..][k - 1];
      }
      forall k | 0 <= k < |t| - 1
        ensures t[k + 1].before == Tally(t[k].before, t[k].row)
      {
        if k > 0 {
          assert t[k] == rest[k - 1] && t[k + 1] == rest[k];
        }
      }
    }
  }

  /** The summary counts the rows of the trace: added rows as added,
      duplicates as duplicates, and the rest as errors. */
  lemma {:induction false} TraceCounts(read: RowReader, lines: seq<string>, index: nat, b: Batch)
    ensures var r := ImportRows(read, lines, index, b);
      var t := Trace(read, lines, index, b);
      && r.stats.added == b.stats.added + CountRows(t, IsAccepted)
      && r.stats.duplicates == b.stats.duplicates + CountRows(t, IsDuplicate)
      && r.stats.errors == b.stats.errors + CountRows(t, IsError)
    decreases |lines|
  {
    if lines != [] {
      var row := read(b.items, b.counter, index, lines[0]);
      var t := Trace(read, lines, index, b);
      TraceCounts(read, lines[1..], index + 1, Tally(b, row));
      assert t[1..] == Trace(read, lines[1..], index + 1, Tally(b, row));
    }
  }

  /** The import counts as duplicates exactly the lines whose name and
      serial an item before them has (those of earlier lines included), and
      adds exactly the lines that pass every check; every other line is an
      error. */
  lemma ImportRowsClassified(ctx: Context, headers: seq<string>, lines: seq<string>, index: nat, b: Batch)
    ensures var t := Trace(Reader(ctx, headers), lines, index, b);
      var r := ImportRows(Reader(ctx, headers), lines, index, b);
      && (forall k :: 0 <= k < |t| ==>
            (t[k].row.Duplicate? <==> ListedRow(ctx, headers, lines[k], t[k].before.items)))
      && (forall k :: 0 <= k < |t| ==>
            (t[k].row.Accepted? <==> AcceptableRow(ctx, headers, lines[k], t[k].before.items)))
      && r.stats.added == b.stats.added + CountRows(t, IsAccepted)
      && r.stats.duplicates == b.stats.duplicates + CountRows(t, IsDuplicate)
      && r.stats.errors == b.stats.errors + CountRows(t, IsError)
  {
    var read := Reader(ctx, headers);
    var t := Trace(read, lines, index, b);
    TraceSteps(read, lines, index, b);
    TraceCounts(read, lines, index, b);
    forall k | 0 <= k < |t|
      ensures t[k].row.Duplicate? <==> ListedRow(ctx, headers, lines[k], t[k].before.items)
      ensures t[k].row.Accepted? <==> AcceptableRow(ctx, headers, lines[k], t[k].before.items)
    {
      RowClassified(ctx, headers, lines[k], t[k].before.items, t[k].before.counter, ctx.uuid(index + k));
    }
  }

  /** `processCsvContent`: a file with fewer than two non-blank lines
      changes nothing; otherwise every data line is accounted for, the
      items there were stay as they were at the front, and every added
      item is a new imported item whose name and serial no earlier item
      has. */
  lemma ImportCsvSummary(ctx: Context, content: string, items: seq<Item>, counter: int)
    ensures var lines := NonBlank(Split(content, {'\n'}));
      var o := ImportCsv(ctx, content, items, counter);
      && (o.NoData? <==> |lines| < 2)
      && (o.Done? ==>
        && o.batch.stats.total == |lines| - 1
        && o.batch.stats.added + o.batch.stats.duplicates + o.batch.stats.errors == o.batch.stats.total
        && |items| <= |o.batch.items| && o.batch.items[..|items|] == items
        && |o.batch.items| - |items| == o.batch.stats.added
        && (forall j :: |items| <= j < |o.batch.items| ==> ImportedNow(ctx, o.batch.items[j]))
        && FreshKeys(o.batch.items, |items|))
  {
    var lines := NonBlank(Split(content, {'\n'}));
    if |lines| >= 2 {
      var data := lines[1..];
      var b := Batch(items, counter, Stats(|data|, 0, 0, 0, []));
      var read := Reader(ctx, Headers(lines[0]));
      ReaderSound(ctx, Headers(lines[0]));
      ImportBalance(read, data, 0, b);
      ImportAppends(read, ctx, data, 0, b);
      ImportNoDuplicates(read, ctx, data, 0, b, |items|);
    }
  }
}
