/** The CSV export: one header line, then one line per item with its
    cells quoted as the export button writes them. How a date is written
    (`formatDatePretty`) is a parameter. */
module CsvExport {
  import opened Wrappers
  import opened Text
  import opened Records
  import opened Csv
  import Import

  /** The exported columns, in order. */
  const ExportHeaders: seq<string> :=
    ["name", "pgSerial", "shop", "kind", "serial", "buyDate", "periodValue", "periodUnit",
     "endDate", "remindDays", "notes"]

  /** `remindDays` as the join writes it: the number, or nothing for a
      stored `NaN` (`null`). */
  function ReminderText(remindDays: Option<int>): string
  {
    if remindDays.Some? then Decimal(remindDays.value) else ""
  }

  /** The cells of an item before any quoting. */
  function RawCells(item: Item, pretty: Stamp -> string): (r: seq<string>)
    ensures |r| == |ExportHeaders|
  {
    [item.name, item.pgSerial, item.shop, item.kind, item.serial, pretty(item.buyDate),
     Decimal(item.periodValue), item.periodUnit, pretty(item.endDate),
     ReminderText(item.remindDays), item.notes]
  }

  /** The cells of an item as exported: strings quoted when they need it,
      numbers as they are, the notes with their own treatment. */
  function ExportCells(item: Item, pretty: Stamp -> string): (r: seq<string>)
    ensures |r| == |ExportHeaders|
  {
    [QuoteField(item.name), QuoteField(item.pgSerial), QuoteField(item.shop), QuoteField(item.kind),
     QuoteField(item.serial), QuoteField(pretty(item.buyDate)), Decimal(item.periodValue),
     QuoteField(item.periodUnit), QuoteField(pretty(item.endDate)),
     ReminderText(item.remindDays), NotesField(item.notes)]
  }

  /** The line of one item. */
  function ExportLine(item: Item, pretty: Stamp -> string): string
  {
    JoinFields(ExportCells(item, pretty))
  }

  /** The lines of a list of items. */
  function ExportLines(items: seq<Item>, pretty: Stamp -> string): (r: seq<string>)
    ensures |r| == |items|
  {
    if items == [] then [] else [ExportLine(items[0], pretty)] + ExportLines(items[1..], pretty)
  }

  /** The exported file, or `None` ("No items to export.") for an empty
      list. */
  function ExportCsv(items: seq<Item>, pretty: Stamp -> string): Option<string>
  {
    if items == [] then None
    else Some(Join([JoinFields(ExportHeaders)] + ExportLines(items, pretty), '\n'))
  }

  /** A string the export writes and the import reads back unchanged: no
      double quote, no line break, no white space at either end. */
  predicate Plain(s: string)
  {
    !HasChar(s, Quote) && !HasChar(s, '\n') && IsTrimmed(s)
  }

  /** An item whose cells all survive the trip. */
  predicate PlainItem(item: Item, pretty: Stamp -> string)
  {
    && Plain(item.name) && Plain(item.pgSerial) && Plain(item.shop) && Plain(item.kind)
    && Plain(item.serial) && Plain(pretty(item.buyDate)) && Plain(item.periodUnit)
    && Plain(pretty(item.endDate)) && Plain(item.notes)
  }

  /** A number needs no quoting and has no double quote. */
  lemma NumberCell(i: int)
    ensures QuoteField(Decimal(i)) == Decimal(i)
    ensures !HasChar(Decimal(i), Quote) && !HasChar(Decimal(i), '\n') && IsTrimmed(Decimal(i))
  {
    var t := Decimal(i);
    DecimalPlain(i);
    assert !HasChar(t, ',') && !HasChar(t, Quote) && !HasChar(t, '\n') by {
      forall k | 0 <= k < |t| ensures t[k] != ',' && t[k] != Quote && t[k] != '\n' {
        assert t[k] == '-' || '0' <= t[k] <= '9';
      }
    }
  }

  /** Notes without double quotes or line breaks are quoted like any other
      string. */
  lemma NotesCell(notes: string)
    requires !HasChar(notes, Quote) && !HasChar(notes, '\n')
    ensures NotesField(notes) == QuoteField(notes)
  {
    if notes != [] {
      ReplaceAbsent(notes, Quote, [Quote, Quote]);
      ReplaceAbsent(notes, '\n', " ");
    }
  }

  /** Each exported cell is the raw cell quoted as a string. */
  lemma CellQuoted(item: Item, pretty: Stamp -> string, k: nat)
    requires PlainItem(item, pretty) && k < |ExportHeaders|
    ensures ExportCells(item, pretty)[k] == QuoteField(RawCells(item, pretty)[k])
  {
    if k == 6 {
      NumberCell(item.periodValue);
    } else if k == 9 {
      if item.remindDays.Some? {
        NumberCell(item.remindDays.value);
      } else {
        assert !NeedsQuotes("");
      }
    } else if k == 10 {
      NotesCell(item.notes);
    }
  }

  /** The exported cells are the raw cells, each quoted as a string. */
  lemma CellsQuoted(item: Item, pretty: Stamp -> string)
    requires PlainItem(item, pretty)
    ensures ExportCells(item, pretty) == QuoteAll(RawCells(item, pretty))
  {
    var cells := ExportCells(item, pretty);
    var q := QuoteAll(RawCells(item, pretty));
    forall k | 0 <= k < |cells| ensures cells[k] == q[k] {
      CellQuoted(item, pretty, k);
    }
  }

  /** The import cuts an exported line into exactly the item's raw cells:
      its text fields, its serial, the two written dates, its period and
      reminder as numbers. */
  lemma ExportLineReadBack(item: Item, pretty: Stamp -> string)
    requires PlainItem(item, pretty)
    ensures SplitFields(ExportLine(item, pretty)) == RawCells(item, pretty)
  {
    var raw := RawCells(item, pretty);
    CellsQuoted(item, pretty);
    RawCellsReadable(item, pretty);
    ExportRoundTrip(raw);
  }

  /** The raw cells of a plain item hold no double quote and are trimmed. */
  lemma RawCellsReadable(item: Item, pretty: Stamp -> string)
    requires PlainItem(item, pretty)
    ensures Readable(RawCells(item, pretty))
  {
    var raw := RawCells(item, pretty);
    NumberCell(item.periodValue);
    assert !HasChar(raw[9], Quote) && IsTrimmed(raw[9]) by {
      if item.remindDays.Some? {
        NumberCell(item.remindDays.value);
      }
    }
    forall k | 0 <= k < |raw| ensures !HasChar(raw[k], Quote) && IsTrimmed(raw[k]) {
    }
  }
}
