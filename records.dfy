/** The records the lifecycle engine keeps: warranty items, trashed items,
    edit-log entries and the changes they list. Every date the engine
    stores is an ISO timestamp string; here it is the instant it denotes. */
module Records {
  import opened Wrappers
  import Text

  /** A stored timestamp: missing (`undefined` or empty), a string that
      `new Date` cannot read, or a valid instant in milliseconds. */
  datatype Stamp = Absent | Invalid | At(ms: int)

  /** `new Date(value).getTime()`: the instant, or `None` for `NaN`. */
  function TimeOf(s: Stamp): (r: Option<int>)
    ensures r.Some? <==> s.At?
  {
    if s.At? then Some(s.ms) else None
  }

  /** A warranty item. `remindDays` is `None` where the stored number is
      `NaN`; `importMeta` is `None` on items created through the form. */
  datatype Item = Item(
    id: string,
    pgSerial: string,
    name: string,
    shop: string,
    kind: string,
    serial: string,
    buyDate: Stamp,
    periodValue: int,
    periodUnit: string,
    endDate: Stamp,
    remindDays: Option<int>,
    notes: string,
    createdAt: Stamp,
    lastEdited: Stamp,
    editCount: nat,
    importMeta: Option<string>,
    isImported: bool)

  /** An item in the trash: the item, when it was deleted, and its id as
      it was when deleted. */
  datatype Trashed = Trashed(item: Item, deletedAt: Stamp, originalId: string)

  /** The fields the edit log compares, in the order it compares them. */
  datatype Field =
    | Name | Shop | Kind | Serial | BuyDate | PeriodValue | PeriodUnit | EndDate
    | RemindDays | Notes

  /** The fields in comparison order. */
  const Fields: seq<Field> :=
    [Name, Shop, Kind, Serial, BuyDate, PeriodValue, PeriodUnit, EndDate, RemindDays, Notes]

  /** The property name of a field as the log records it. */
  function FieldName(f: Field): string
  {
    match f
    case Name => "name"
    case Shop => "shop"
    case Kind => "kind"
    case Serial => "serial"
    case BuyDate => "buyDate"
    case PeriodValue => "periodValue"
    case PeriodUnit => "periodUnit"
    case EndDate => "endDate"
    case RemindDays => "remindDays"
    case Notes => "notes"
  }

  /** The fields compared as dates are exactly those whose name contains
      "Date". */
  predicate IsDateField(f: Field)
  {
    f == BuyDate || f == EndDate
  }

  /** A stored field value: a string, a number, JSON `null` (a `NaN` that
      was stored), or a timestamp. */
  datatype Value = Text(s: string) | Number(n: int) | Null | Moment(stamp: Stamp)

  /** `String(value)` for the values that are not compared as dates. */
  function Render(v: Value): string
  {
    match v
    case Text(s) => s
    case Number(n) => Text.Decimal(n)
    case Null => "null"
    case Moment(_) => ""
  }

  /** The value of field `f` of an item. */
  function ValueOf(item: Item, f: Field): (v: Value)
    ensures IsDateField(f) <==> v.Moment?
  {
    match f
    case Name => Text(item.name)
    case Shop => Text(item.shop)
    case Kind => Text(item.kind)
    case Serial => Text(item.serial)
    case BuyDate => Moment(item.buyDate)
    case PeriodValue => Number(item.periodValue)
    case PeriodUnit => Text(item.periodUnit)
    case EndDate => Moment(item.endDate)
    case RemindDays => if item.remindDays.Some? then Number(item.remindDays.value) else Null
    case Notes => Text(item.notes)
  }

  /** One changed field as the log records it. */
  datatype Change = Change(field: Field, oldValue: Value, newValue: Value)

  /** An edit-log entry. `editIndex` is the item's edit count after the
      edit. */
  datatype LogEntry = LogEntry(
    id: string,
    itemId: string,
    name: string,
    pgSerial: string,
    changes: seq<Change>,
    editIndex: int,
    at: Stamp)

  /** `findIndex(i => i.id === id)`: the first position holding `id`. */
  function FindIndex(items: seq<Item>, id: string): (r: Option<nat>)
    ensures r.Some? ==> r.value < |items| && items[r.value].id == id
    ensures r.Some? ==> forall j :: 0 <= j < r.value ==> items[j].id != id
    ensures r.None? ==> forall j :: 0 <= j < |items| ==> items[j].id != id
  {
    if items == [] then None
    else if items[0].id == id then Some(0)
    else
      var r := FindIndex(items[1..], id);
      if r.Some? then Some(r.value + 1) else None
  }

  /** The same search over the trash, by the trashed item's id. */
  function FindTrashed(trash: seq<Trashed>, id: string): (r: Option<nat>)
    ensures r.Some? ==> r.value < |trash| && trash[r.value].item.id == id
    ensures r.Some? ==> forall j :: 0 <= j < r.value ==> trash[j].item.id != id
    ensures r.None? ==> forall j :: 0 <= j < |trash| ==> trash[j].item.id != id
  {
    if trash == [] then None
    else if trash[0].item.id == id then Some(0)
    else
      var r := FindTrashed(trash[1..], id);
      if r.Some? then Some(r.value + 1) else None
  }

  /** `list.splice(i, 1)`: the list without position `i`. */
  function Without<T>(s: seq<T>, i: nat): (r: seq<T>)
    requires i < |s|
    ensures |r| == |s| - 1
    ensures forall j :: 0 <= j < i ==> r[j] == s[j]
    ensures forall j :: i <= j < |r| ==> r[j] == s[j + 1]
  {
    s[..i] + s[i + 1..]
  }
}
