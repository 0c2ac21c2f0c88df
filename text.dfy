/** String helpers that mirror the JavaScript string operations the
    lifecycle engine relies on: `trim`, ASCII case mapping, `includes`,
    `split` on single characters, `join`, `padStart`, number rendering with
    `toString(radix)`, `parseInt` and `Number`. */
module Text {
  import opened Wrappers

  /** The characters `String.prototype.trim` removes: white space and line
      terminators. */
  predicate IsSpace(c: char)
  {
    || c == ' ' || c == '\t' || c == '\n' || c == '\r'
    || c == '\U{000B}' || c == '\U{000C}' || c == '\U{00A0}' || c == '\U{1680}'
    || ('\U{2000}' <= c <= '\U{200A}')
    || c == '\U{2028}' || c == '\U{2029}' || c == '\U{202F}' || c == '\U{205F}'
    || c == '\U{3000}' || c == '\U{FEFF}'
  }

  /** The number of white-space characters `s` starts with. */
  function LeadingSpaces(s: string): (n: nat)
    ensures n <= |s|
    ensures forall i :: 0 <= i < n ==> IsSpace(s[i])
    ensures n == |s| || !IsSpace(s[n])
  {
    if s != [] && IsSpace(s[0]) then 1 + LeadingSpaces(s[1..]) else 0
  }

  /** The number of white-space characters `s` ends with. */
  function TrailingSpaces(s: string): (n: nat)
    ensures n <= |s|
    ensures forall i :: |s| - n <= i < |s| ==> IsSpace(s[i])
    ensures n == |s| || !IsSpace(s[|s| - n - 1])
  {
    if s != [] && IsSpace(s[|s| - 1]) then 1 + TrailingSpaces(s[..|s| - 1]) else 0
  }

  /** `s.trimStart()`. */
  function TrimStart(s: string): string
  {
    s[LeadingSpaces(s)..]
  }

  /** `s.trimEnd()`. */
  function TrimEnd(s: string): string
  {
    s[..|s| - TrailingSpaces(s)]
  }

  /** `s.trim()`. */
  function Trim(s: string): string
  {
    TrimEnd(TrimStart(s))
  }

  predicate IsTrimmed(s: string)
  {
    s == [] || (!IsSpace(s[0]) && !IsSpace(s[|s| - 1]))
  }

  /** Trimming leaves no space at either end, so trimming twice changes
      nothing more. */
  lemma TrimIsTrimmed(s: string)
    ensures IsTrimmed(Trim(s)) && Trim(Trim(s)) == Trim(s)
  {
    var a := TrimStart(s);
    var r := TrimEnd(a);
    if r != [] {
      assert r[0] == a[0];
    }
    TrimmedFixed(r);
  }

  lemma TrimmedFixed(s: string)
    requires IsTrimmed(s)
    ensures Trim(s) == s
  {
  }

  function LowerChar(c: char): char
  {
    if 'A' <= c <= 'Z' then (c as int + 32) as char else c
  }

  function UpperChar(c: char): char
  {
    if 'a' <= c <= 'z' then (c as int - 32) as char else c
  }

  /** `s.toLowerCase()` on the ASCII letters. */
  function Lower(s: string): (r: string)
    ensures |r| == |s|
    ensures forall i :: 0 <= i < |s| ==> r[i] == LowerChar(s[i])
  {
    if s == [] then [] else [LowerChar(s[0])] + Lower(s[1..])
  }

  predicate StartsWith(s: string, p: string)
  {
    |p| <= |s| && s[..|p|] == p
  }

  /** `s.includes(p)`. */
  predicate Contains(s: string, p: string)
  {
    StartsWith(s, p) || (s != [] && Contains(s[1..], p))
  }

  predicate OccursAt(s: string, p: string, i: int)
  {
    0 <= i <= |s| - |p| && s[i..i + |p|] == p
  }

  /** `s.includes(p)` holds exactly when `p` occurs at some position. */
  lemma {:induction false} ContainsAt(s: string, p: string)
    ensures Contains(s, p) <==> exists i :: OccursAt(s, p, i)
  {
    if s != [] {
      ContainsAt(s[1..], p);
      if exists i :: OccursAt(s, p, i) {
        var i :| OccursAt(s, p, i);
        if i > 0 {
          assert OccursAt(s[1..], p, i - 1) by {
            assert s[1..][i - 1..i - 1 + |p|] == s[i..i + |p|];
          }
        } else {
          assert StartsWith(s, p);
        }
      }
      if Contains(s[1..], p) && !StartsWith(s, p) {
        var i :| OccursAt(s[1..], p, i);
        assert s[1..][i..i + |p|] == s[i + 1..i + 1 + |p|];
        assert OccursAt(s, p, i + 1);
      }
      if StartsWith(s, p) {
        assert OccursAt(s, p, 0);
      }
    } else {
      if exists i :: OccursAt(s, p, i) {
        var i :| OccursAt(s, p, i);
        assert i == 0 && |p| == 0;
        assert StartsWith(s, p);
      }
      if StartsWith(s, p) {
        assert OccursAt(s, p, 0);
      }
    }
  }

  lemma ContainsPrefix(p: string, x: string)
    ensures Contains(p + x, p)
  {
    assert (p + x)[..|p|] == p;
  }

  predicate HasChar(s: string, c: char)
  {
    exists i :: 0 <= i < |s| && s[i] == c
  }

  /** `s.split(sep)` generalised to a set of one-character separators
      (`split(',')`, `split('\n')`, `split(/[\/\-\.]/)`). */
  function Split(s: string, seps: set<char>): (parts: seq<string>)
    ensures |parts| >= 1
  {
    if s == [] then [[]]
    else
      var rest := Split(s[1..], seps);
      if s[0] in seps then [[]] + rest else [[s[0]] + rest[0]] + rest[1..]
  }

  /** `parts.join(sep)`. */
  function Join(parts: seq<string>, sep: char): string
  {
    if parts == [] then []
    else if |parts| == 1 then parts[0]
    else parts[0] + [sep] + Join(parts[1..], sep)
  }

  /** No piece of a split contains a separator. */
  lemma {:induction false} SplitPiecesFree(s: string, seps: set<char>)
    ensures forall k, i :: 0 <= k < |Split(s, seps)| && 0 <= i < |Split(s, seps)[k]| ==>
      Split(s, seps)[k][i] !in seps
  {
    if s != [] {
      SplitPiecesFree(s[1..], seps);
    }
  }

  /** A string without a separator is a single piece. */
  lemma {:induction false} SplitNone(s: string, seps: set<char>)
    requires forall i :: 0 <= i < |s| ==> s[i] !in seps
    ensures Split(s, seps) == [s]
  {
    if s != [] {
      SplitNone(s[1..], seps);
      assert [s[0]] + s[1..] == s;
    }
  }

  /** A separator after a piece without separators cuts there. */
  lemma {:induction false} SplitAfter(a: string, c: char, b: string, seps: set<char>)
    requires forall i :: 0 <= i < |a| ==> a[i] !in seps
    requires c in seps
    ensures Split(a + [c] + b, seps) == [a] + Split(b, seps)
  {
    var s := a + [c] + b;
    if a == [] {
      assert s[0] == c && s[1..] == b;
    } else {
      assert s[0] == a[0] && s[1..] == a[1..] + [c] + b;
      SplitAfter(a[1..], c, b, seps);
      assert [a[0]] + a[1..] == a;
    }
  }

  /** Splitting a join on a character no piece holds gives the pieces
      back. */
  lemma {:induction false} SplitJoin(parts: seq<string>, c: char)
    requires |parts| >= 1
    requires forall k, i :: 0 <= k < |parts| && 0 <= i < |parts[k]| ==> parts[k][i] != c
    ensures Split(Join(parts, c), {c}) == parts
  {
    SplitNone(parts[0], {c});
    if |parts| > 1 {
      SplitJoin(parts[1..], c);
      SplitAfter(parts[0], c, Join(parts[1..], c), {c});
      assert [parts[0]] + parts[1..] == parts;
    }
  }

  /** Joining the pieces of a split on one character gives the string back. */
  lemma {:induction false} JoinSplit(s: string, c: char)
    ensures Join(Split(s, {c}), c) == s
  {
    if s != [] {
      var rest := Split(s[1..], {c});
      JoinSplit(s[1..], c);
      if s[0] == c {
        assert Split(s, {c}) == [[]] + rest;
        assert Join([[]] + rest, c) == [] + [c] + Join(rest, c);
      } else {
        var parts := [[s[0]] + rest[0]] + rest[1..];
        if |rest| == 1 {
          assert Join(parts, c) == [s[0]] + rest[0];
          assert Join(rest, c) == rest[0];
        } else {
          assert Join(parts, c) == [s[0]] + rest[0] + [c] + Join(rest[1..], c);
          assert Join(rest, c) == rest[0] + [c] + Join(rest[1..], c);
        }
      }
    }
  }

  function Repeat(c: char, n: nat): (r: string)
    ensures |r| == n && forall i :: 0 <= i < n ==> r[i] == c
  {
    if n == 0 then [] else [c] + Repeat(c, n - 1)
  }

  /** `s.padStart(width, c)`. */
  function PadStart(s: string, width: nat, c: char): (r: string)
    ensures |r| == if |s| < width then width else |s|
    ensures r == Repeat(c, |r| - |s|) + s
  {
    if |s| < width then Repeat(c, width - |s|) + s else s
  }

  /** The digit for `d` as `toString(radix).toUpperCase()` writes it:
      digits beyond 9 are capitals. */
  function DigitChar(d: nat): (c: char)
    requires d < 16
    ensures ('0' <= c <= '9') || ('A' <= c <= 'F')
    ensures DigitValue(c) == Some(d)
  {
    if d < 10 then ('0' as int + d) as char else ('A' as int + d - 10) as char
  }

  predicate IsUpperHexDigit(c: char)
  {
    ('0' <= c <= '9') || ('A' <= c <= 'F')
  }

  function DigitValue(c: char): Option<nat>
  {
    if '0' <= c <= '9' then Some(c as int - '0' as int)
    else if 'A' <= c <= 'F' then Some(c as int - 'A' as int + 10)
    else if 'a' <= c <= 'f' then Some(c as int - 'a' as int + 10)
    else None
  }

  predicate IsDigit(c: char, base: nat)
  {
    DigitValue(c).Some? && DigitValue(c).value < base
  }

  predicate AllDigits(s: string, base: nat)
  {
    forall i :: 0 <= i < |s| ==> IsDigit(s[i], base)
  }

  /** The value of a string of digits, most significant first. */
  function NumeralValue(s: string, base: nat): nat
    requires AllDigits(s, base)
  {
    if s == [] then 0
    else NumeralValue(s[..|s| - 1], base) * base + DigitValue(s[|s| - 1]).value
  }

  /** `n.toString(base)` for a non-negative `n`, capital hex digits. */
  function Numeral(n: nat, base: nat): (r: string)
    requires 2 <= base <= 16
    ensures |r| >= 1 && AllDigits(r, base)
    ensures forall i :: 0 <= i < |r| ==> IsUpperHexDigit(r[i])
  {
    if n < base then [DigitChar(n)]
    else
      QuotientSmaller(n, base);
      RemainderBelow(n, base);
      Numeral(n / base, base) + [DigitChar(n % base)]
  }

  /** A positive number is written without a leading zero. */
  lemma {:induction false} NumeralNoLeadingZero(n: nat, base: nat)
    requires 2 <= base <= 16 && n > 0
    ensures Numeral(n, base)[0] != '0'
  {
    if n >= base {
      NumeralNoLeadingZero(n / base, base);
    } else {
      assert DigitValue(Numeral(n, base)[0]) == Some(n);
    }
  }

  /** Reading back a rendered number gives the number. */
  lemma {:induction false} NumeralRoundTrip(n: nat, base: nat)
    requires 2 <= base <= 16
    ensures NumeralValue(Numeral(n, base), base) == n
  {
    var r := Numeral(n, base);
    if n >= base {
      var q, d := n / base, n % base;
      var front := Numeral(q, base);
      QuotientSmaller(n, base);
      NumeralRoundTrip(q, base);
      assert r[..|r| - 1] == front && r[|r| - 1] == DigitChar(d);
      DivModParts(n, base);
      calc {
        NumeralValue(r, base);
        NumeralValue(front, base) * base + d;
        q * base + d;
      }
    }
  }

  lemma DivModParts(n: nat, base: nat)
    requires base > 0
    ensures (n / base) * base + n % base == n
  {
  }

  lemma RemainderBelow(n: nat, base: nat)
    requires base > 0
    ensures n % base < base
  {
  }

  lemma QuotientSmaller(n: nat, base: nat)
    requires 2 <= base <= n
    ensures n / base < n
  {
    var q := n / base;
    assert q * base <= n;
  }

  /** Leading zeros do not change a numeral's value. */
  lemma {:induction false} LeadingZeros(k: nat, s: string, base: nat)
    requires 2 <= base <= 16 && AllDigits(s, base)
    ensures AllDigits(Repeat('0', k) + s, base)
    ensures NumeralValue(Repeat('0', k) + s, base) == NumeralValue(s, base)
  {
    var t := Repeat('0', k) + s;
    assert AllDigits(t, base) by {
      forall i | 0 <= i < |t| ensures IsDigit(t[i], base) {
        if i >= k { assert t[i] == s[i - k]; }
      }
    }
    if s == [] {
      ZerosValue(k, base);
      assert t == Repeat('0', k);
    } else {
      LeadingZeros(k, s[..|s| - 1], base);
      assert t[..|t| - 1] == Repeat('0', k) + s[..|s| - 1];
    }
  }

  lemma {:induction false} ZerosValue(k: nat, base: nat)
    requires 2 <= base <= 16
    ensures AllDigits(Repeat('0', k), base)
    ensures NumeralValue(Repeat('0', k), base) == 0
  {
    if k > 0 {
      ZerosValue(k - 1, base);
      assert Repeat('0', k)[..k - 1] == Repeat('0', k - 1);
    }
  }

  /** Six-digit numbers render in exactly six decimal digits. */
  lemma SixDigits(n: nat)
    requires 100000 <= n <= 999999
    ensures |Numeral(n, 10)| == 6
  {
    var n1 := n / 10;
    var n2 := n1 / 10;
    var n3 := n2 / 10;
    var n4 := n3 / 10;
    var n5 := n4 / 10;
    assert 1 <= n5 <= 9;
    assert |Numeral(n5, 10)| == 1;
    assert |Numeral(n4, 10)| == 2;
    assert |Numeral(n3, 10)| == 3;
    assert |Numeral(n2, 10)| == 4;
    assert |Numeral(n1, 10)| == 5;
  }

  /** `String(i)` for an integer. */
  function Decimal(i: int): string
  {
    if i < 0 then "-" + Numeral(-i, 10) else Numeral(i, 10)
  }

  /** The longest prefix of `s` made of digits of `base`. */
  function DigitPrefix(s: string, base: nat): (r: string)
    ensures |r| <= |s| && r == s[..|r|] && AllDigits(r, base)
    ensures |r| == |s| || !IsDigit(s[|r|], base)
  {
    if s != [] && IsDigit(s[0], base) then [s[0]] + DigitPrefix(s[1..], base) else []
  }

  /** Splits an optional leading sign off a string: (negative?, rest). */
  function SignOf(s: string): (bool, string)
  {
    if s != [] && s[0] == '-' then (true, s[1..])
    else if s != [] && s[0] == '+' then (false, s[1..])
    else (false, s)
  }

  predicate HasHexPrefix(s: string)
  {
    |s| >= 2 && s[0] == '0' && (s[1] == 'x' || s[1] == 'X')
  }

  /** `parseInt(s)` with no radix: leading white space, an optional sign, a
      `0x` prefix selects base 16, then the longest run of digits; `None`
      (NaN) when there is no digit. */
  function ParseInt(s: string): (r: Option<int>)
  {
    var (negative, u) := SignOf(TrimStart(s));
    var (base, body) := if HasHexPrefix(u) then (16, u[2..]) else (10, u);
    var digits := DigitPrefix(body, base);
    if digits == [] then None
    else
      var v: int := NumeralValue(digits, base);
      Some(if negative then -v else v)
  }

  /** A run of decimal digits is all digits for `parseInt`. */
  lemma {:induction false} DigitPrefixAll(s: string, base: nat)
    requires AllDigits(s, base)
    ensures DigitPrefix(s, base) == s
  {
    if s != [] {
      DigitPrefixAll(s[1..], base);
      assert [s[0]] + s[1..] == s;
    }
  }

  /** `parseInt` reads a run of decimal digits as its value. */
  lemma ParseDigits(s: string)
    requires s != [] && AllDigits(s, 10)
    ensures ParseInt(s) == Some(NumeralValue(s, 10))
  {
    assert !IsSpace(s[0]);
    assert LeadingSpaces(s) == 0;
    assert TrimStart(s) == s;
    assert !HasHexPrefix(s) by {
      if |s| >= 2 { assert IsDigit(s[1], 10); }
    }
    DigitPrefixAll(s, 10);
  }

  /** `Number(s)` on the integer forms: surrounding white space is ignored,
      an empty string is 0, otherwise an optionally signed run of decimal
      digits or a `0x` hexadecimal literal; anything else is `None` (NaN). */
  function NumberValue(s: string): (r: Option<int>)
  {
    var t := Trim(s);
    if t == [] then Some(0)
    else if HasHexPrefix(t) && |t| > 2 && AllDigits(t[2..], 16) then Some(NumeralValue(t[2..], 16))
    else
      var (negative, u) := SignOf(t);
      if u != [] && AllDigits(u, 10) then
        var v: int := NumeralValue(u, 10);
        Some(if negative then -v else v)
      else None
  }

  /** A decimal digit is neither white space nor a sign nor an `x`. */
  lemma DecimalDigitChar(c: char)
    requires IsDigit(c, 10)
    ensures '0' <= c <= '9' && !IsSpace(c)
  {
  }

  /** `String(i)` is trimmed, non-empty and free of double quotes, commas
      and line breaks. */
  lemma DecimalPlain(i: int)
    ensures var t := Decimal(i);
      && t != [] && IsTrimmed(t)
      && forall k :: 0 <= k < |t| ==> t[k] == '-' || '0' <= t[k] <= '9'
  {
    var t := Decimal(i);
    var digits := Numeral(if i < 0 then -i else i, 10);
    forall k | 0 <= k < |digits| ensures '0' <= digits[k] <= '9' {
      DecimalDigitChar(digits[k]);
    }
    if i < 0 {
      assert t == "-" + digits;
      forall k | 0 < k < |t| ensures '0' <= t[k] <= '9' {
        assert t[k] == digits[k - 1];
      }
    }
  }

  /** `Number(String(i)) == i`. */
  lemma NumberOfDecimal(i: int)
    ensures NumberValue(Decimal(i)) == Some(i)
  {
    var t := Decimal(i);
    DecimalPlain(i);
    TrimmedFixed(t);
    assert !HasHexPrefix(t) by {
      if |t| >= 2 { assert '0' <= t[1] <= '9' || t[1] == '-'; }
    }
    var n := if i < 0 then -i else i;
    NumeralRoundTrip(n, 10);
    if i < 0 {
      assert t[1..] == Numeral(n, 10);
    } else {
      DecimalDigitChar(t[0]);
    }
  }

  /** Replaces every occurrence of the character `c` by `with`
      (`s.replace(/c/g, with)`). */
  function ReplaceChar(s: string, c: char, with: string): (r: string)
    ensures !HasChar(with, c) ==> !HasChar(r, c)
  {
    if s == [] then []
    else (if s[0] == c then with else [s[0]]) + ReplaceChar(s[1..], c, with)
  }

  lemma {:induction false} ReplaceAbsent(s: string, c: char, with: string)
    requires !HasChar(s, c)
    ensures ReplaceChar(s, c, with) == s
  {
    if s != [] {
      assert !HasChar(s[1..], c) by {
        forall i | 0 <= i < |s| - 1 ensures s[1..][i] != c {
          assert s[1..][i] == s[i + 1];
        }
      }
      ReplaceAbsent(s[1..], c, with);
    }
  }
}
