/** What the engine derives from an item and the current instant: its
    expiry status, the "days left" label, the NEW tag, the import lock and
    the edit-limit guard of the edit dialog. The current instant is a
    parameter. */
module Status {
  import opened Wrappers
  import opened Text
  import opened Records
  import Calendar

  const DayMs := Calendar.DayMs
  const HourMs := Calendar.HourMs

  /** An item stays NEW for 36 hours after it is created. */
  const NewWindowMs := 36 * HourMs

  /** The reminder window used when an item has none (or zero). */
  const DefaultRemindDays := 30

  /** The most edits the edit dialog allows on an item. */
  const EditLimit := 2

  datatype ItemStatus = Active | ExpiringSoon | Expired

  /** `Math.ceil((end - now) / 86400000)`: the days left until `end`,
      rounded up. */
  function DaysLeft(end: int, now: int): (d: int)
    ensures (d - 1) * DayMs < end - now <= d * DayMs
  {
    -((now - end) / DayMs)
  }

  /** No day is left exactly when the end is not after now. */
  lemma DaysLeftPositive(end: int, now: int)
    ensures DaysLeft(end, now) > 0 <==> end > now
  {
    var d := DaysLeft(end, now);
    if d > 0 {
      assert (d - 1) * DayMs >= 0;
    } else {
      assert d * DayMs <= 0;
    }
  }

  /** Fewer days are left at a later instant. */
  lemma DaysLeftAntitone(end: int, now1: int, now2: int)
    requires now1 <= now2
    ensures DaysLeft(end, now2) <= DaysLeft(end, now1)
  {
  }

  /** `item.remindDays || 30`. */
  function ReminderWindow(remindDays: Option<int>): (w: int)
    ensures remindDays.Some? && remindDays.value != 0 ==> w == remindDays.value
    ensures remindDays.None? || remindDays == Some(0) ==> w == DefaultRemindDays
  {
    if remindDays.Some? && remindDays.value != 0 then remindDays.value else DefaultRemindDays
  }

  /** `calculateStatus(item)` at instant `now`. */
  function CalculateStatus(item: Item, now: int): ItemStatus
  {
    if !item.endDate.At? then Active
    else
      var d := DaysLeft(item.endDate.ms, now);
      if d <= 0 then Expired
      else if d <= ReminderWindow(item.remindDays) then ExpiringSoon
      else Active
  }

  /** An item is expired exactly when it has a valid end date that is not
      after now. */
  lemma ExpiredIff(item: Item, now: int)
    ensures CalculateStatus(item, now) == Expired
        <==> item.endDate.At? && item.endDate.ms <= now
  {
    if item.endDate.At? {
      DaysLeftPositive(item.endDate.ms, now);
    }
  }

  /** An item is expiring soon exactly when it has a valid end date and
      the days left, rounded up, are between 1 and its reminder window. */
  lemma ExpiringSoonIff(item: Item, now: int)
    ensures CalculateStatus(item, now) == ExpiringSoon
        <==> (item.endDate.At?
              && 0 < DaysLeft(item.endDate.ms, now) <= ReminderWindow(item.remindDays))
  {
  }

  /** A missing or unreadable end date never expires. */
  lemma NoEndDateActive(item: Item, now: int)
    requires !item.endDate.At?
    ensures CalculateStatus(item, now) == Active
  {
  }

  /** Once expired, an item stays expired. */
  lemma ExpiredStaysExpired(item: Item, now1: int, now2: int)
    requires now1 <= now2
    requires CalculateStatus(item, now1) == Expired
    ensures CalculateStatus(item, now2) == Expired
  {
    ExpiredIff(item, now1);
    ExpiredIff(item, now2);
  }

  /** `getDaysUntilExpiry(item)` at instant `now`. */
  function DaysUntilExpiry(item: Item, now: int): string
  {
    if !item.endDate.At? then ""
    else
      var d := DaysLeft(item.endDate.ms, now);
      if d <= 0 then "Expired"
      else PadStart(Numeral(d, 10), 2, '0') + " D"
  }

  /** The label reads "Expired" exactly when the status is expired. */
  lemma ExpiredLabelIff(item: Item, now: int)
    ensures DaysUntilExpiry(item, now) == "Expired" <==> CalculateStatus(item, now) == Expired
  {
    if item.endDate.At? {
      var d := DaysLeft(item.endDate.ms, now);
      if d > 0 {
        var shown := DaysUntilExpiry(item, now);
        assert shown[|shown| - 1] == 'D';
        assert "Expired"[6] == 'd';
      }
    }
  }

  /** The label is empty exactly when the end date is missing or
      unreadable; otherwise, unless expired, it is the days left written
      with two digits, or more without a leading zero, then " D". */
  lemma DaysLabelFormat(item: Item, now: int)
    ensures DaysUntilExpiry(item, now) == "" <==> !item.endDate.At?
    ensures item.endDate.At? && CalculateStatus(item, now) != Expired ==>
      var shown := DaysUntilExpiry(item, now);
      var digits := shown[..|shown| - 2];
      && |shown| >= 4 && shown[|shown| - 2..] == " D"
      && AllDigits(digits, 10) && NumeralValue(digits, 10) == DaysLeft(item.endDate.ms, now)
      && (|digits| == 2 || digits[0] != '0')
  {
    ExpiredIff(item, now);
    if item.endDate.At? && CalculateStatus(item, now) != Expired {
      var d := DaysLeft(item.endDate.ms, now);
      DaysLeftPositive(item.endDate.ms, now);
      var n := Numeral(d, 10);
      var p := PadStart(n, 2, '0');
      var shown := DaysUntilExpiry(item, now);
      assert shown == p + " D";
      assert shown[..|shown| - 2] == p;
      assert p == Repeat('0', |p| - |n|) + n;
      LeadingZeros(|p| - |n|, n, 10);
      NumeralRoundTrip(d, 10);
      NumeralNoLeadingZero(d, 10);
    }
  }

  /** `isItemNew(item)`: created less than 36 hours before now. */
  predicate IsItemNew(item: Item, now: int)
  {
    item.createdAt.At? && now - item.createdAt.ms < NewWindowMs
  }

  /** An item whose creation time is moved back 37 hours when it is
      restored (`setHours(getHours() - 37)`) is not NEW at the moment of
      the restore or later, if it was created before the restore. */
  lemma RestoredNotNew(item: Item, restoredAt: int, now: int)
    requires item.createdAt.At? && item.createdAt.ms <= restoredAt <= now
    ensures var shifted := Calendar.AddHours(item.createdAt.ms, -37);
      shifted.Some? ==> !IsItemNew(item.(createdAt := At(shifted.value)), now)
  {
  }

  /** `isItemImported(item)`: the import note says it came from a CSV
      file. */
  predicate IsItemImported(item: Item)
  {
    item.importMeta.Some? && Contains(item.importMeta.value, "Imported from CSV")
  }

  /** The edit dialog keeps the save button enabled only for an item that
      is not imported and has been edited fewer than two times. */
  predicate EditAllowed(item: Item)
  {
    !IsItemImported(item) && item.editCount < EditLimit
  }
}
