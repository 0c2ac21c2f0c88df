/** The field-by-field comparison the save handler makes before it
    accepts an edit, producing the change list of the edit log. */
module Changes {
  import opened Wrappers
  import opened Records

  /** Whether field `f` differs between `a` and `b`. Date fields compare by
      the instant they denote, two unreadable dates being equal; every
      other field compares by its string form. */
  predicate Changed(f: Field, a: Item, b: Item)
  {
    var x, y := ValueOf(a, f), ValueOf(b, f);
    if IsDateField(f) then TimeOf(x.stamp) != TimeOf(y.stamp)
    else Render(x) != Render(y)
  }

  /** The position of a field in the comparison order. */
  function Rank(f: Field): (r: nat)
    ensures r < |Fields| && Fields[r] == f
  {
    match f
    case Name => 0
    case Shop => 1
    case Kind => 2
    case Serial => 3
    case BuyDate => 4
    case PeriodValue => 5
    case PeriodUnit => 6
    case EndDate => 7
    case RemindDays => 8
    case Notes => 9
  }

  /** The changes over the fields `fs`, in the order of `fs`. */
  function DiffOver(fs: seq<Field>, a: Item, b: Item): seq<Change>
  {
    if fs == [] then []
    else
      var f := fs[0];
      (if Changed(f, a, b) then [Change(f, ValueOf(a, f), ValueOf(b, f))] else [])
      + DiffOver(fs[1..], a, b)
  }

  /** The changes from `a` to `b` over all compared fields. */
  function Diff(a: Item, b: Item): seq<Change>
  {
    DiffOver(Fields, a, b)
  }

  /** Every entry of a change list names a field that changed, with its old
      and new values. */
  predicate Faithful(d: seq<Change>, a: Item, b: Item)
  {
    forall i :: 0 <= i < |d| ==>
      && Changed(d[i].field, a, b)
      && d[i].oldValue == ValueOf(a, d[i].field)
      && d[i].newValue == ValueOf(b, d[i].field)
  }

  /** The entries of a change list are in comparison order, each field at
      most once. */
  predicate Ordered(d: seq<Change>)
  {
    forall i, j :: 0 <= i < j < |d| ==> Rank(d[i].field) < Rank(d[j].field)
  }

  /** The change list `d` has an entry for field `f`. */
  predicate Lists(d: seq<Change>, f: Field)
  {
    exists i :: 0 <= i < |d| && d[i].field == f
  }

  /** The fields of `fs` come in comparison order. */
  predicate RankSorted(fs: seq<Field>)
  {
    forall i, j :: 0 <= i < j < |fs| ==> Rank(fs[i]) < Rank(fs[j])
  }

  /** Every entry of the change list over `fs` names a field of `fs` that
      changed, with its old and new values. */
  lemma {:induction false} DiffOverSound(fs: seq<Field>, a: Item, b: Item)
    ensures var d := DiffOver(fs, a, b);
      Faithful(d, a, b) && forall i :: 0 <= i < |d| ==> d[i].field in fs
  {
    if fs != [] {
      DiffOverSound(fs[1..], a, b);
    }
  }

  /** Every field of `fs` that changed has an entry in the change list
      over `fs`. */
  lemma {:induction false} DiffOverComplete(fs: seq<Field>, a: Item, b: Item)
    ensures forall f :: f in fs && Changed(f, a, b) ==> Lists(DiffOver(fs, a, b), f)
  {
    if fs != [] {
      var f := fs[0];
      var rest := DiffOver(fs[1..], a, b);
      var d := DiffOver(fs, a, b);
      DiffOverComplete(fs[1..], a, b);
      var head := if Changed(f, a, b) then [Change(f, ValueOf(a, f), ValueOf(b, f))] else [];
      assert d == head + rest;
      forall g | g in fs && Changed(g, a, b)
        ensures Lists(d, g)
      {
        if g == f {
          assert d[0].field == g;
        } else {
          assert g in fs[1..];
          var i :| 0 <= i < |rest| && rest[i].field == g;
          assert d[|head| + i].field == g;
        }
      }
    }
  }

  /** Over fields in comparison order, the change list is in comparison
      order too. */
  lemma {:induction false} DiffOverOrdered(fs: seq<Field>, a: Item, b: Item)
    requires RankSorted(fs)
    ensures Ordered(DiffOver(fs, a, b))
  {
    if fs != [] {
      var f := fs[0];
      var rest := DiffOver(fs[1..], a, b);
      DiffOverOrdered(fs[1..], a, b);
      DiffOverSound(fs[1..], a, b);
      forall i | 0 <= i < |rest|
        ensures Rank(f) < Rank(rest[i].field)
      {
        var k :| 0 <= k < |fs[1..]| && fs[1..][k] == rest[i].field;
        assert fs[k + 1] == rest[i].field;
      }
    }
  }

  lemma FieldsSorted()
    ensures RankSorted(Fields)
  {
    assert Rank(Fields[0]) == 0 && Rank(Fields[1]) == 1 && Rank(Fields[2]) == 2;
    assert Rank(Fields[3]) == 3 && Rank(Fields[4]) == 4 && Rank(Fields[5]) == 5;
    assert Rank(Fields[6]) == 6 && Rank(Fields[7]) == 7 && Rank(Fields[8]) == 8;
    assert Rank(Fields[9]) == 9;
  }

  /** The edit log's change list: exactly the changed fields, once each, in
      the order name, shop, kind, serial, buyDate, periodValue, periodUnit,
      endDate, remindDays, notes, with their old and new values. */
  lemma DiffCorrect(a: Item, b: Item)
    ensures Faithful(Diff(a, b), a, b) && Ordered(Diff(a, b))
    ensures forall f :: Changed(f, a, b) <==> Lists(Diff(a, b), f)
  {
    FieldsSorted();
    DiffOverSound(Fields, a, b);
    DiffOverComplete(Fields, a, b);
    DiffOverOrdered(Fields, a, b);
    forall f
      ensures f in Fields
    {
      assert Fields[Rank(f)] == f;
    }
  }

  /** The change list is empty exactly when no field changed. */
  lemma NoChangesIff(a: Item, b: Item)
    ensures Diff(a, b) == [] <==> forall f :: !Changed(f, a, b)
  {
    DiffCorrect(a, b);
    if Diff(a, b) != [] {
      assert Changed(Diff(a, b)[0].field, a, b);
    }
  }

  /** A date field is unchanged when both instants are equal or both dates
      are unreadable. */
  lemma DateFieldUnchanged(f: Field, a: Item, b: Item)
    requires IsDateField(f)
    ensures !Changed(f, a, b) <==> TimeOf(ValueOf(a, f).stamp) == TimeOf(ValueOf(b, f).stamp)
  {
  }
}
