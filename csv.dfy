/** The CSV text handling of the import and the export: the import's
    character-level field splitter, its quote clean-up, and the export's
    field quoting. The splitter toggles a "quoted" state on every double
    quote and drops the quote characters themselves, so a doubled quote
    (`""`) inside a quoted field, as section 2 of RFC 4180 writes a quote,
    does not survive a round trip. */
module Csv {
  import opened Text

  const Quote: char := '"'

  /** The fields the splitter produces from the rest `s` of a line, before
      trimming, in the quoted state `inQuotes`, with `cur` the part of the
      current field read so far. */
  function Scan(s: string, inQuotes: bool, cur: string): (r: seq<string>)
    ensures |r| >= 1
  {
    if s == [] then [cur]
    else if s[0] == Quote then Scan(s[1..], !inQuotes, cur)
    else if s[0] == ',' && !inQuotes then [cur] + Scan(s[1..], inQuotes, [])
    else Scan(s[1..], inQuotes, cur + [s[0]])
  }

  /** The trimmed pieces of a list of strings. */
  function TrimAll(parts: seq<string>): (r: seq<string>)
    ensures |r| == |parts|
  {
    if parts == [] then [] else [Trim(parts[0])] + TrimAll(parts[1..])
  }

  /** Each piece is trimmed on its own. */
  lemma {:induction false} TrimAllAt(parts: seq<string>, k: nat)
    requires k < |parts|
    ensures TrimAll(parts)[k] == Trim(parts[k])
  {
    if k > 0 {
      TrimAllAt(parts[1..], k - 1);
    }
  }

  /** The fields of one data line: every field is trimmed when it is
      pushed. */
  function SplitFields(line: string): seq<string>
  {
    TrimAll(Scan(line, false, []))
  }

  /** The splitter's loop: one pass over the characters of the line,
      toggling the quoted state, closing a field at each comma outside
      quotes and keeping every other character but the quotes. */
  method SplitLine(line: string) returns (values: seq<string>)
    ensures values == SplitFields(line)
  {
    values := [];
    ghost var pieces: seq<string> := [];
    var inQuotes := false;
    var current := "";
    var i := 0;
    while i < |line|
      invariant 0 <= i <= |line|
      invariant |values| == |pieces|
      invariant forall k :: 0 <= k < |values| ==> values[k] == Trim(pieces[k])
      invariant pieces + Scan(line[i..], inQuotes, current) == Scan(line, false, [])
    {
      var c := line[i];
      assert line[i..][1..] == line[i + 1..];
      if c == Quote {
        assert Scan(line[i..], inQuotes, current) == Scan(line[i + 1..], !inQuotes, current);
        inQuotes := !inQuotes;
      } else if c == ',' && !inQuotes {
        assert Scan(line[i..], inQuotes, current) == [current] + Scan(line[i + 1..], inQuotes, []);
        assert pieces + [current] + Scan(line[i + 1..], inQuotes, [])
            == pieces + ([current] + Scan(line[i + 1..], inQuotes, []));
        values := values + [Trim(current)];
        pieces := pieces + [current];
        current := "";
      } else {
        assert Scan(line[i..], inQuotes, current) == Scan(line[i + 1..], inQuotes, current + [c]);
        current := current + [c];
      }
      i := i + 1;
    }
    assert line[i..] == [];
    values := values + [Trim(current)];
    pieces := pieces + [current];
    TrimmedPieces(pieces, values);
  }

  /** A list holding the trimmed form of every piece is their `TrimAll`. */
  lemma {:induction false} TrimmedPieces(parts: seq<string>, values: seq<string>)
    requires |values| == |parts|
    requires forall k :: 0 <= k < |values| ==> values[k] == Trim(parts[k])
    ensures values == TrimAll(parts)
  {
    if parts != [] {
      TrimmedPieces(parts[1..], values[1..]);
      assert values == [values[0]] + values[1..];
    }
  }

  /** Trimming pieces already trimmed changes nothing. */
  lemma {:induction false} TrimAllFixed(parts: seq<string>)
    requires forall k :: 0 <= k < |parts| ==> IsTrimmed(parts[k])
    ensures TrimAll(parts) == parts
  {
    if parts != [] {
      TrimmedFixed(parts[0]);
      TrimAllFixed(parts[1..]);
      assert parts == [parts[0]] + parts[1..];
    }
  }

  /** No piece the splitter produces contains a double quote. */
  lemma {:induction false} ScanDropsQuotes(s: string, inQuotes: bool, cur: string)
    requires !HasChar(cur, Quote)
    ensures forall k :: 0 <= k < |Scan(s, inQuotes, cur)| ==> !HasChar(Scan(s, inQuotes, cur)[k], Quote)
  {
    if s != [] {
      if s[0] == Quote {
        ScanDropsQuotes(s[1..], !inQuotes, cur);
      } else if s[0] == ',' && !inQuotes {
        ScanDropsQuotes(s[1..], inQuotes, []);
      } else {
        assert !HasChar(cur + [s[0]], Quote) by {
          forall i | 0 <= i < |cur| + 1 ensures (cur + [s[0]])[i] != Quote {
            if i < |cur| { assert (cur + [s[0]])[i] == cur[i]; }
          }
        }
        ScanDropsQuotes(s[1..], inQuotes, cur + [s[0]]);
      }
    }
  }

  /** No field of a split line contains a double quote. */
  lemma FieldsDropQuotes(line: string)
    ensures forall k :: 0 <= k < |SplitFields(line)| ==> !HasChar(SplitFields(line)[k], Quote)
  {
    var pieces := Scan(line, false, []);
    var fields := SplitFields(line);
    ScanDropsQuotes(line, false, []);
    forall k | 0 <= k < |fields| ensures !HasChar(fields[k], Quote) {
      TrimAllAt(pieces, k);
      TrimKeepsOut(pieces[k], Quote);
    }
  }

  /** Trimming never adds a character. */
  lemma TrimKeepsOut(s: string, c: char)
    requires !HasChar(s, c)
    ensures !HasChar(Trim(s), c)
  {
    var a := TrimStart(s);
    var r := TrimEnd(a);
    forall i | 0 <= i < |r| ensures r[i] != c {
      assert r[i] == a[i] == s[|s| - |a| + i];
    }
  }

  /** On a line without double quotes the splitter cuts where
      `split(',')` does. */
  lemma {:induction false} ScanPlain(s: string, cur: string)
    requires !HasChar(s, Quote)
    ensures var p := Split(s, {','});
      Scan(s, false, cur) == [cur + p[0]] + p[1..]
  {
    if s != [] {
      var p := Split(s, {','});
      var rest := Split(s[1..], {','});
      assert !HasChar(s[1..], Quote) by {
        forall i | 0 <= i < |s| - 1 ensures s[1..][i] != Quote {
          assert s[1..][i] == s[i + 1];
        }
      }
      assert s[0] != Quote;
      if s[0] == ',' {
        ScanPlain(s[1..], []);
        assert p == [[]] + rest;
        assert [] + rest[0] == rest[0];
        assert [rest[0]] + rest[1..] == rest;
        assert cur + [] == cur;
      } else {
        ScanPlain(s[1..], cur + [s[0]]);
        assert cur + [s[0]] + rest[0] == cur + ([s[0]] + rest[0]);
      }
    } else {
      assert cur + [] == cur;
    }
  }

  /** On a line without double quotes the splitter is `line.split(',')`
      with every piece trimmed. */
  lemma SplitFieldsPlain(line: string)
    requires !HasChar(line, Quote)
    ensures SplitFields(line) == TrimAll(Split(line, {','}))
  {
    ScanPlain(line, []);
    var p := Split(line, {','});
    assert [] + p[0] == p[0];
    assert [p[0]] + p[1..] == p;
  }

  /** The clean-up applied to every split field: a field that starts and
      ends with a double quote loses them, and its doubled quotes become
      single. */
  function Clean(v: string): string
  {
    if StartsWith(v, [Quote]) && |v| >= 1 && v[|v| - 1] == Quote then
      Unescape(if |v| >= 2 then v[1..|v| - 1] else [])
    else v
  }

  /** `replace(/""/g, '"')`. */
  function Unescape(s: string): string
  {
    if |s| >= 2 && s[0] == Quote && s[1] == Quote then [Quote] + Unescape(s[2..])
    else if s == [] then []
    else [s[0]] + Unescape(s[1..])
  }

  /** The clean-up never changes a field the splitter produced: those hold
      no double quote. */
  lemma CleanIsIdentity(line: string)
    ensures forall k :: 0 <= k < |SplitFields(line)| ==> Clean(SplitFields(line)[k]) == SplitFields(line)[k]
  {
    FieldsDropQuotes(line);
    forall k | 0 <= k < |SplitFields(line)|
      ensures Clean(SplitFields(line)[k]) == SplitFields(line)[k]
    {
    }
  }

  /** Whether the export must quote a string field. */
  predicate NeedsQuotes(v: string)
  {
    HasChar(v, ',') || HasChar(v, Quote) || HasChar(v, '\n')
  }

  /** The export's quoting of a string field: a field holding a comma, a
      double quote or a line break is put in double quotes, with its
      double quotes doubled. */
  function QuoteField(v: string): string
  {
    if NeedsQuotes(v) then [Quote] + ReplaceChar(v, Quote, [Quote, Quote]) + [Quote] else v
  }

  /** The export's handling of the notes field: double quotes doubled,
      line breaks turned into spaces, then quoted when a comma or a
      double quote remains; an empty note is left empty. */
  function NotesField(notes: string): string
  {
    if notes == [] then []
    else
      var v := ReplaceChar(ReplaceChar(notes, Quote, [Quote, Quote]), '\n', " ");
      if NeedsQuotes(v) then [Quote] + v + [Quote] else v
  }

  /** An exported note never spans two lines. */
  lemma NotesOneLine(notes: string)
    ensures !HasChar(NotesField(notes), '\n')
  {
    if notes != [] {
      var v := ReplaceChar(ReplaceChar(notes, Quote, [Quote, Quote]), '\n', " ");
      assert !HasChar(" ", '\n');
      var r := NotesField(notes);
      if NeedsQuotes(v) {
        forall i | 0 <= i < |r| ensures r[i] != '\n' {
          if 0 < i < |r| - 1 { assert r[i] == v[i - 1]; }
        }
      }
    }
  }

  /** Characters without a double quote are kept whole by the splitter:
      outside quotes they must hold no comma either. */
  lemma {:induction false} ScanAppend(s: string, t: string, inQuotes: bool, cur: string)
    requires !HasChar(s, Quote) && (inQuotes || !HasChar(s, ','))
    ensures Scan(s + t, inQuotes, cur) == Scan(t, inQuotes, cur + s)
  {
    if s != [] {
      assert (s + t)[1..] == s[1..] + t;
      assert s[0] != Quote && (inQuotes || s[0] != ',');
      assert !HasChar(s[1..], Quote) && (inQuotes || !HasChar(s[1..], ',')) by {
        forall i | 0 <= i < |s| - 1 ensures s[1..][i] == s[i + 1] {}
      }
      assert (s + t)[0] == s[0];
      ScanAppend(s[1..], t, inQuotes, cur + [s[0]]);
      assert cur + [s[0]] + s[1..] == cur + s;
    } else {
      assert s + t == t && cur + s == cur;
    }
  }

  /** A field is read back from its quoted form up to the next separator:
      the field, the rest of the line unchanged. */
  lemma ReadQuoted(v: string, t: string, cur: string)
    requires !HasChar(v, Quote)
    ensures Scan(QuoteField(v) + t, false, cur) == Scan(t, false, cur + v)
  {
    if NeedsQuotes(v) {
      ReplaceAbsent(v, Quote, [Quote, Quote]);
      var q := [Quote] + v + [Quote];
      assert q + t == [Quote] + (v + ([Quote] + t));
      assert ([Quote] + (v + ([Quote] + t)))[1..] == v + ([Quote] + t);
      ScanAppend(v, [Quote] + t, true, cur);
      assert ([Quote] + t)[1..] == t;
    } else {
      ScanAppend(v, t, false, cur);
    }
  }

  /** The export's fields, joined by commas. */
  function JoinFields(vs: seq<string>): string
  {
    Join(vs, ',')
  }

  /** Whether every value is free of double quotes and already trimmed. */
  predicate Readable(vs: seq<string>)
  {
    forall k :: 0 <= k < |vs| ==> !HasChar(vs[k], Quote) && IsTrimmed(vs[k])
  }

  /** The quoted form of every value. */
  function QuoteAll(vs: seq<string>): (r: seq<string>)
    ensures |r| == |vs|
    ensures forall k :: 0 <= k < |vs| ==> r[k] == QuoteField(vs[k])
  {
    if vs == [] then [] else [QuoteField(vs[0])] + QuoteAll(vs[1..])
  }

  /** The splitter cuts an exported row back into the values it was
      written from, when none holds a double quote. */
  lemma {:induction false} ReadBack(vs: seq<string>)
    requires |vs| >= 1
    requires forall k :: 0 <= k < |vs| ==> !HasChar(vs[k], Quote)
    ensures Scan(JoinFields(QuoteAll(vs)), false, []) == vs
  {
    var q := QuoteAll(vs);
    if |vs| == 1 {
      assert JoinFields(q) == QuoteField(vs[0]) + [];
      ReadQuoted(vs[0], [], []);
    } else {
      var tail := JoinFields(QuoteAll(vs[1..]));
      assert q[1..] == QuoteAll(vs[1..]);
      assert JoinFields(q) == QuoteField(vs[0]) + ([','] + tail);
      ReadQuoted(vs[0], [','] + tail, []);
      assert ([','] + tail)[0] == ',' && ([','] + tail)[1..] == tail;
      ReadBack(vs[1..]);
      assert [vs[0]] + vs[1..] == vs;
    }
    assert [] + vs[0] == vs[0];
  }

  /** The import reads an exported row back as the values it was written
      from, when none holds a double quote or surrounding white space. */
  lemma ExportRoundTrip(vs: seq<string>)
    requires |vs| >= 1 && Readable(vs)
    ensures SplitFields(JoinFields(QuoteAll(vs))) == vs
  {
    ReadBack(vs);
    TrimAllFixed(vs);
  }

  /** A value holding a double quote loses it on the way back: the export
      writes a lone `"` as `""""`, which the import reads as an empty
      field. */
  lemma QuoteLostExample()
    ensures QuoteField([Quote]) == [Quote, Quote, Quote, Quote]
    ensures SplitFields(QuoteField([Quote])) == [[]]
  {
    var v := [Quote];
    assert HasChar(v, Quote) by { assert v[0] == Quote; }
    assert ReplaceChar(v, Quote, [Quote, Quote]) == [Quote, Quote] + ReplaceChar([], Quote, [Quote, Quote]);
    var w := [Quote, Quote, Quote, Quote];
    assert Scan(w[3..], true, []) == [[]];
    assert Scan(w[2..], false, []) == [[]];
    assert Scan(w[1..], true, []) == [[]];
    assert Scan(w, false, []) == [[]];
  }
}
