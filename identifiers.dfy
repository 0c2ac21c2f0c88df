/** The two counters behind item serials and log ids, and the text each
    counter value is issued as. */
module Identifiers {
  import opened Text

  /** The lowest and highest values of the item serial counter. */
  const PgFirst := 625001
  const PgLast := 699999

  /** The log id counter starts here. */
  const LogSeed := 10000000

  /** The serial counter after one step: one more, wrapping back to the
      first value once it passes the last. */
  function NextPg(n: int): (r: int)
    ensures r == n + 1 || r == PgFirst
    ensures PgFirst <= n <= PgLast ==> PgFirst <= r <= PgLast
    ensures r == PgFirst <==> n + 1 > PgLast || n + 1 == PgFirst
  {
    if n + 1 > PgLast then PgFirst else n + 1
  }

  /** `'PG' + n.toString().padStart(6, '0')`. */
  function PgSerialText(n: int): string
  {
    "PG" + PadStart(Decimal(n), 6, '0')
  }

  /** A serial in the counter's range is `PG` and six decimal digits that
      read back as the counter value. */
  lemma PgSerialFormat(n: int)
    requires PgFirst <= n <= PgLast
    ensures var s := PgSerialText(n);
      && |s| == 8 && s[..2] == "PG"
      && AllDigits(s[2..], 10) && NumeralValue(s[2..], 10) == n
  {
    assert Decimal(n) == Numeral(n, 10);
    SixDigits(n);
    var s := PgSerialText(n);
    assert PadStart(Numeral(n, 10), 6, '0') == Numeral(n, 10);
    assert s[2..] == Numeral(n, 10);
    NumeralRoundTrip(n, 10);
  }

  /** Distinct counter values give distinct serials. */
  lemma PgSerialInjective(m: int, n: int)
    requires PgFirst <= m <= PgLast && PgFirst <= n <= PgLast
    requires PgSerialText(m) == PgSerialText(n)
    ensures m == n
  {
    PgSerialFormat(m);
    PgSerialFormat(n);
  }

  /** How many values the serial counter runs through before it repeats. */
  const PgSpan := PgLast - PgFirst + 1

  /** The serial counter after `k` serials were issued from `n`. */
  function Issued(n: int, k: nat): int
  {
    if k == 0 then n else NextPg(Issued(n, k - 1))
  }

  /** From a value in range, the counter after `k` issues is `k` places on
      in the cycle from the first to the last value. */
  lemma {:induction false} IssuedCycle(n: int, k: nat)
    requires PgFirst <= n <= PgLast
    ensures Issued(n, k) == PgFirst + (n - PgFirst + k) % PgSpan
  {
    if k > 0 {
      IssuedCycle(n, k - 1);
      CycleStep(n - PgFirst + k - 1);
    }
  }

  /** One step on in the cycle. */
  lemma CycleStep(x: int)
    ensures NextPg(PgFirst + x % PgSpan) == PgFirst + (x + 1) % PgSpan
  {
    var q := x / PgSpan;
    var r := x % PgSpan;
    assert x == q * PgSpan + r;
    if r + 1 == PgSpan {
      assert x + 1 == (q + 1) * PgSpan;
    } else {
      assert x + 1 == q * PgSpan + (r + 1);
    }
  }

  /** Counter values fewer than `PgSpan` issues apart differ; after
      exactly `PgSpan` issues the counter is back where it was. */
  lemma IssuedRepeatsOnlyAfterCycle(n: int, i: nat, j: nat)
    requires PgFirst <= n <= PgLast && i < j
    ensures PgFirst <= Issued(n, i) <= PgLast && PgFirst <= Issued(n, j) <= PgLast
    ensures j - i < PgSpan ==> Issued(n, i) != Issued(n, j)
    ensures j - i == PgSpan ==> Issued(n, i) == Issued(n, j)
  {
    IssuedCycle(n, i);
    IssuedCycle(n, j);
    if j - i <= PgSpan {
      ModShift(n - PgFirst + i, j - i);
    }
  }

  /** Serials issued fewer than `PgSpan` issues apart differ; after exactly
      `PgSpan` issues the same serial is issued again. */
  lemma SerialsRepeatOnlyAfterCycle(n: int, i: nat, j: nat)
    requires PgFirst <= n <= PgLast && i < j
    ensures j - i < PgSpan ==> PgSerialText(Issued(n, i)) != PgSerialText(Issued(n, j))
    ensures j - i == PgSpan ==> PgSerialText(Issued(n, i)) == PgSerialText(Issued(n, j))
  {
    IssuedRepeatsOnlyAfterCycle(n, i, j);
    var a, b := Issued(n, i), Issued(n, j);
    if j - i < PgSpan {
      PgSerialInjectiveInRange(a, b);
    }
  }

  /** Moving on by `d` places changes the place in the cycle unless `d` is a
      whole number of cycles, and a whole cycle changes nothing. */
  lemma ModShift(x: int, d: int)
    requires 0 < d <= PgSpan
    ensures d < PgSpan ==> x % PgSpan != (x + d) % PgSpan
    ensures d == PgSpan ==> x % PgSpan == (x + d) % PgSpan
  {
    var q := x / PgSpan;
    var r := x % PgSpan;
    assert x == q * PgSpan + r;
    if r + d < PgSpan {
      assert x + d == q * PgSpan + (r + d);
    } else {
      assert x + d == (q + 1) * PgSpan + (r + d - PgSpan);
    }
  }

  /** `PgSerialInjective` for two values known to be in range. */
  lemma PgSerialInjectiveInRange(m: int, n: int)
    requires PgFirst <= m <= PgLast && PgFirst <= n <= PgLast && m != n
    ensures PgSerialText(m) != PgSerialText(n)
  {
    if PgSerialText(m) == PgSerialText(n) {
      PgSerialInjective(m, n);
    }
  }

  /** `n.toString(16).padStart(8, '0').toUpperCase()`. */
  function LogIdText(n: nat): string
  {
    PadStart(Numeral(n, 16), 8, '0')
  }

  /** A log id has at least eight capital hexadecimal digits and reads back
      as the counter value. */
  lemma LogIdFormat(n: nat)
    ensures var s := LogIdText(n);
      && |s| >= 8
      && (forall i :: 0 <= i < |s| ==> IsUpperHexDigit(s[i]))
      && AllDigits(s, 16) && NumeralValue(s, 16) == n
  {
    var digits := Numeral(n, 16);
    var s := LogIdText(n);
    var k := |s| - |digits|;
    assert s == Repeat('0', k) + digits;
    LeadingZeros(k, digits, 16);
    NumeralRoundTrip(n, 16);
    forall i | 0 <= i < |s|
      ensures IsUpperHexDigit(s[i])
    {
      if i >= k {
        assert s[i] == digits[i - k];
      }
    }
  }

  /** Distinct counter values give distinct log ids. */
  lemma LogIdInjective(m: nat, n: nat)
    requires LogIdText(m) == LogIdText(n)
    ensures m == n
  {
    LogIdFormat(m);
    LogIdFormat(n);
  }
}
