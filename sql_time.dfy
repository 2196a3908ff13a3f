/**
 * sql_time_z of sqllib.c: reads an SQL DATE or DATETIME text
 * (YYYY-MM-DD[ T]hh:mm:ss[.frac][Z]) into its fields, then returns -1 for
 * an invalid date, 0 for the all-zero date, and otherwise the time_t that
 * timegm (UTC) or mktime (local time) gives for the fields.
 */
module SqlTime {
  import opened Wrappers
  import opened SqlText
  import opened FormatArgs

  /** The byte the pointer is at: NUL at the end of the string. */
  function Head(t: string): char
  {
    if t == [] then '\0' else t[0]
  }

  /** Up to c digits read into acc: the value and what follows them. */
  function Field(t: string, c: nat, acc: nat): (r: (nat, string))
    ensures |t| - c <= |r.1| <= |t|
    decreases c
  {
    if c > 0 && IsDigit(Head(t)) then Field(t[1..], c - 1, acc * 10 + (t[0] as int - '0' as int))
    else (acc, t)
  }

  /** Steps over one byte ch (not NUL) if the text starts with it. */
  function Skip(t: string, ch: char): (r: string)
    requires ch != '\0'
    ensures |t| - 1 <= |r| <= |t|
  {
    if Head(t) == ch then t[1..] else t
  }

  function SkipDigits(t: string): (r: string)
    ensures |r| <= |t| && !IsDigit(Head(r))
    decreases |t|
  {
    if IsDigit(Head(t)) then SkipDigits(t[1..]) else t
  }

  /** Fractional seconds: a '.' and the digits after it. */
  function SkipFraction(t: string): (r: string)
    ensures |r| <= |t|
  {
    if Head(t) == '.' then SkipDigits(t[1..]) else t
  }

  datatype Fields = Fields(year: nat, mon: nat, day: nat, hour: nat, min: nat, sec: nat)

  /** The fields read and where the pointer is left. */
  datatype Scanned = Scanned(fields: Fields, rest: string)

  /** The time part: only read when bytes remain after the date. */
  function ScanClock(t: string): (r: Scanned)
    ensures |r.rest| <= |t|
  {
    var (h, t1) := Field(t, 2, 0);
    var (m, t2) := Field(Skip(t1, ':'), 2, 0);
    var (s, t3) := Field(Skip(t2, ':'), 2, 0);
    Scanned(Fields(0, 0, 0, h, m, s), SkipFraction(t3))
  }

  /** The date part and the ' ' or 'T' that may follow it. */
  function ScanDate(t: string): (r: Scanned)
    ensures |t| - 11 <= |r.rest| <= |t|
  {
    var (y, t1) := Field(t, 4, 0);
    var (mo, t2) := Field(Skip(t1, '-'), 2, 0);
    var (d, t3) := Field(Skip(t2, '-'), 2, 0);
    Scanned(Fields(y, mo, d, 0, 0, 0), if Head(t3) == ' ' || Head(t3) == 'T' then t3[1..] else t3)
  }

  function Scan(t: string): (r: Scanned)
    ensures |r.rest| <= |t|
  {
    var d := ScanDate(t);
    if Head(d.rest) == '\0' then d
    else
      var c := ScanClock(d.rest);
      Scanned(Fields(d.fields.year, d.fields.mon, d.fields.day, c.fields.hour, c.fields.min, c.fields.sec), c.rest)
  }

  predicate AllZero(f: Fields)
  {
    f.year == 0 && f.mon == 0 && f.day == 0 && f.hour == 0 && f.min == 0 && f.sec == 0
  }

  /** What the code rejects; hours, minutes and seconds are not checked. */
  predicate Invalid(f: Fields)
  {
    f.year == 0 || f.mon == 0 || f.day == 0 || f.mon > 12 || f.day > 31
  }

  function ToTm(f: Fields): Tm
  {
    Tm(f.year - 1900, f.mon - 1, f.day, f.hour, f.min, f.sec)
  }

  /** sql_time_z(t, utc); None is a NULL pointer. */
  function TimeZ(t: Option<string>, utc: bool, host: Host): int
  {
    match t
    case None => -1
    case Some(t) =>
      var sc := Scan(t);
      if AllZero(sc.fields) then 0
      else if Invalid(sc.fields) then -1
      else if Head(sc.rest) == 'Z' || utc then host.timegm(ToTm(sc.fields))
      else host.mktime(ToTm(sc.fields))
  }

  // ---------------------------------------------------------------------
  // The pointer-walking implementation: the pointer is the suffix it points to
  // ---------------------------------------------------------------------

  /** Reads at most limit digits into a decimal value, stopping at the first non-digit. */
  method ReadField(t0: string, limit: nat) returns (v: nat, t: string)
    ensures Field(t0, limit, 0) == (v, t)
  {
    v, t := 0, t0;
    var c := limit;
    while c > 0 && IsDigit(Head(t))
      invariant Field(t, c, v) == Field(t0, limit, 0)
      decreases c
    {
      v := v * 10 + (t[0] as int - '0' as int);
      t := t[1..];
      c := c - 1;
    }
  }

  method SkipChar(t0: string, ch: char) returns (t: string)
    requires ch != '\0'
    ensures t == Skip(t0, ch)
  {
    t := t0;
    if Head(t) == ch {
      t := t[1..];
    }
  }

  method PassFraction(t0: string) returns (t: string)
    ensures t == SkipFraction(t0)
  {
    t := t0;
    if Head(t) == '.' {
      t := t[1..];
      while IsDigit(Head(t))
        invariant SkipDigits(t) == SkipFraction(t0)
        decreases |t|
      {
        t := t[1..];
      }
    }
  }

  method ReadClock(t0: string) returns (h: nat, m: nat, s: nat, t: string)
    ensures ScanClock(t0) == Scanned(Fields(0, 0, 0, h, m, s), t)
  {
    h, t := ReadField(t0, 2);
    t := SkipChar(t, ':');
    m, t := ReadField(t, 2);
    t := SkipChar(t, ':');
    s, t := ReadField(t, 2);
    t := PassFraction(t);
  }

  method ReadDate(t0: string) returns (y: nat, mo: nat, d: nat, t: string)
    ensures ScanDate(t0) == Scanned(Fields(y, mo, d, 0, 0, 0), t)
  {
    y, t := ReadField(t0, 4);
    t := SkipChar(t, '-');
    mo, t := ReadField(t, 2);
    t := SkipChar(t, '-');
    d, t := ReadField(t, 2);
    if Head(t) == ' ' || Head(t) == 'T' {
      t := t[1..];
    }
  }

  method ReadFields(t0: string) returns (f: Fields, t: string)
    ensures Scan(t0) == Scanned(f, t)
  {
    var y, mo, d;
    y, mo, d, t := ReadDate(t0);
    f := Fields(y, mo, d, 0, 0, 0);
    if Head(t) != '\0' {
      var h, m, s;
      h, m, s, t := ReadClock(t);
      f := Fields(y, mo, d, h, m, s);
    }
  }

  /** sql_time_z: the fields, the zero date, the checks, then timegm or mktime. */
  method SqlTimeZ(t: Option<string>, utc: bool, host: Host) returns (r: int)
    ensures r == TimeZ(t, utc, host)
  {
    if t.None? {
      return -1;
    }
    var f, rest := ReadFields(t.value);
    if f.year == 0 && f.mon == 0 && f.day == 0 && f.hour == 0 && f.min == 0 && f.sec == 0 {
      return 0;
    }
    if f.year == 0 || f.mon == 0 || f.day == 0 || f.mon > 12 || f.day > 31 {
      return -1;
    }
    var tm := Tm(f.year - 1900, f.mon - 1, f.day, f.hour, f.min, f.sec);
    if Head(rest) == 'Z' || utc {
      r := host.timegm(tm);
    } else {
      r := host.mktime(tm);
    }
  }

  // ---------------------------------------------------------------------
  // Properties
  // ---------------------------------------------------------------------

  lemma BoundStep(acc: nat, x: nat, p: nat)
    requires x <= 9
    ensures (acc * 10 + x + 1) * p <= (acc + 1) * (10 * p)
  {
    assert (acc + 1) * (10 * p) == (acc * 10 + x + 1) * p + (9 - x) * p;
  }

  lemma BelowNext(a: nat, p: nat)
    requires 1 <= p
    ensures a < (a + 1) * p
  {
    assert (a + 1) * p == (a + 1) + (a + 1) * (p - 1);
  }

  /** A field of c digits is below 10^c. */
  lemma {:induction false} FieldBound(t: string, c: nat, acc: nat)
    ensures Field(t, c, acc).0 < (acc + 1) * Pow10(c)
    decreases c
  {
    if c > 0 && IsDigit(Head(t)) {
      var x := t[0] as int - '0' as int;
      assert Field(t, c, acc) == Field(t[1..], c - 1, acc * 10 + x);
      FieldBound(t[1..], c - 1, acc * 10 + x);
      BoundStep(acc, x, Pow10(c - 1));
    } else {
      assert Field(t, c, acc).0 == acc;
      BelowNext(acc, Pow10(c));
    }
  }

  /** The year has at most four digits and the other fields at most two. */
  lemma FieldsBounded(t: string)
    ensures Scan(t).fields.year < 10000
    ensures Scan(t).fields.mon < 100 && Scan(t).fields.day < 100
    ensures Scan(t).fields.hour < 100 && Scan(t).fields.min < 100 && Scan(t).fields.sec < 100
  {
    assert Pow10(4) == 10000 && Pow10(2) == 100;
    var (y, t1) := Field(t, 4, 0);
    FieldBound(t, 4, 0);
    var (mo, t2) := Field(Skip(t1, '-'), 2, 0);
    FieldBound(Skip(t1, '-'), 2, 0);
    FieldBound(Skip(t2, '-'), 2, 0);
    var r := ScanDate(t).rest;
    if Head(r) != '\0' {
      var (h, u1) := Field(r, 2, 0);
      FieldBound(r, 2, 0);
      var (m, u2) := Field(Skip(u1, ':'), 2, 0);
      FieldBound(Skip(u1, ':'), 2, 0);
      FieldBound(Skip(u2, ':'), 2, 0);
    }
  }

  /** Reading a digit after a run of digits. */
  lemma {:induction false} ValueOfCons(x: char, d: string)
    requires IsDigit(x) && forall k :: 0 <= k < |d| ==> IsDigit(d[k])
    ensures ValueOf([x] + d) == (x as int - '0' as int) * Pow10(|d|) + ValueOf(d)
    decreases |d|
  {
    if d != [] {
      var e := d[..|d| - 1];
      var xd := [x] + d;
      assert xd[..|xd| - 1] == [x] + e && xd[|xd| - 1] == d[|d| - 1];
      ValueOfCons(x, e);
      var y := d[|d| - 1] as int - '0' as int;
      assert ValueOf(xd) == ValueOf([x] + e) * 10 + y;
      assert ValueOf(d) == ValueOf(e) * 10 + y;
      ShiftDigit(x as int - '0' as int, Pow10(|e|), ValueOf(e), y);
    }
  }

  lemma ShiftDigit(v: int, p: int, w: int, y: int)
    ensures (v * p + w) * 10 + y == v * (10 * p) + (w * 10 + y)
  {
  }

  lemma Horner(acc: int, x: int, p: int, v: int)
    ensures (acc * 10 + x) * p + v == acc * (10 * p) + (x * p + v)
  {
  }

  /** A field of exactly w digits followed by anything reads the value of the digits. */
  lemma {:induction false} FieldReads(d: string, r: string, w: nat, acc: nat)
    requires |d| == w && forall k :: 0 <= k < |d| ==> IsDigit(d[k])
    ensures Field(d + r, w, acc) == (acc * Pow10(w) + ValueOf(d), r)
    decreases w
  {
    if w == 0 {
      assert d + r == r;
    } else {
      var x := d[0] as int - '0' as int;
      var t := d + r;
      assert t[1..] == d[1..] + r && t[0] == d[0];
      assert Field(t, w, acc) == Field(d[1..] + r, w - 1, acc * 10 + x);
      FieldReads(d[1..], r, w - 1, acc * 10 + x);
      assert [d[0]] + d[1..] == d;
      ValueOfCons(d[0], d[1..]);
      Horner(acc, x, Pow10(w - 1), ValueOf(d[1..]));
    }
  }

  /** A number of at most w digits printed as %0<w>d is read back by a w-digit field. */
  lemma PaddedFieldReads(n: nat, w: nat, r: string)
    requires 1 <= w && n < Pow10(w)
    ensures Field(PadDecimal(n, w) + r, w, 0) == (n, r)
  {
    PadDecimalExact(n, w);
    ValueOfPadDecimal(n, w);
    FieldReads(PadDecimal(n, w), r, w, 0);
  }

  /** Five pieces built up to the left, then more text, nested to the right. */
  lemma {:induction false} Reassociate(a: string, b: string, c: string, d: string, e: string, rest: string)
    ensures (a + b + c + d + e) + rest == a + (b + (c + (d + (e + rest))))
  {
    Associative(a + b + c + d, e, rest);
    Associative(a + b + c, d, e + rest);
    Associative(a + b, c, d + (e + rest));
    Associative(a, b, c + (d + (e + rest)));
  }

  lemma {:induction false} Reassociate6(a: string, b: string, c: string, d: string, e: string, f: string, rest: string)
    ensures (a + b + c + d + e + f) + rest == a + (b + (c + (d + (e + (f + rest)))))
  {
    Associative(a + b + c + d + e, f, rest);
    Reassociate(a, b, c, d, e, f + rest);
  }

  /** The datetime text followed by rest, nested to the right. */
  lemma DateTimeThen(tm: Tm, rest: string)
    ensures DateTime(tm) + rest
      == PadDecimal(U32(tm.year + 1900), 4) + ("-" + (PadDecimal(U32(tm.mon + 1), 2) + ("-" + (PadDecimal(U32(tm.mday), 2)
         + (" " + (PadDecimal(U32(tm.hour), 2) + (":" + (PadDecimal(U32(tm.min), 2) + (":" + (PadDecimal(U32(tm.sec), 2) + rest))))))))))
  {
    var y, mo, d := PadDecimal(U32(tm.year + 1900), 4), PadDecimal(U32(tm.mon + 1), 2), PadDecimal(U32(tm.mday), 2);
    var h, mi, se := PadDecimal(U32(tm.hour), 2), PadDecimal(U32(tm.min), 2), PadDecimal(U32(tm.sec), 2);
    var date := y + "-" + mo + "-" + d;
    var w := date + " " + h + ":" + mi + ":";
    assert DateTime(tm) == w + se;
    Associative(w, se, rest);
    Reassociate6(date, " ", h, ":", mi, ":", se + rest);
    Reassociate(y, "-", mo, "-", d, " " + (h + (":" + (mi + (":" + (se + rest))))));
  }

  lemma OneByte(ch: char, r: string)
    ensures Head([ch] + r) == ch && ([ch] + r)[1..] == r
  {
  }

  /** A printed valid date is read back, then the blank before the clock is stepped over. */
  lemma ScanPrintedDate(y: nat, mo: nat, d: nat, r: string)
    requires 1 <= y <= 9999 && 1 <= mo <= 12 && 1 <= d <= 31
    ensures ScanDate(PadDecimal(y, 4) + ("-" + (PadDecimal(mo, 2) + ("-" + (PadDecimal(d, 2) + (" " + r))))))
      == Scanned(Fields(y, mo, d, 0, 0, 0), r)
  {
    assert Pow10(4) == 10000 && Pow10(2) == 100;
    var r4 := " " + r;
    var r3 := PadDecimal(d, 2) + r4;
    var r2 := "-" + r3;
    var r1 := PadDecimal(mo, 2) + r2;
    var r0 := "-" + r1;
    PaddedFieldReads(y, 4, r0);
    OneByte('-', r1);
    PaddedFieldReads(mo, 2, r2);
    OneByte('-', r3);
    PaddedFieldReads(d, 2, r4);
    OneByte(' ', r);
  }

  /** A printed clock is read back; fractional seconds after it are stepped over. */
  lemma ScanPrintedClock(h: nat, m: nat, sec: nat, rest: string)
    requires h < 100 && m < 100 && sec < 100
    ensures Head(PadDecimal(h, 2) + rest) != '\0'
    ensures ScanClock(PadDecimal(h, 2) + (":" + (PadDecimal(m, 2) + (":" + (PadDecimal(sec, 2) + rest)))))
      == Scanned(Fields(0, 0, 0, h, m, sec), SkipFraction(rest))
  {
    assert Pow10(2) == 100;
    PadDecimalExact(h, 2);
    ValueOfPadDecimal(h, 2);
    assert IsDigit(PadDecimal(h, 2)[0]);
    var r3 := PadDecimal(sec, 2) + rest;
    var r2 := ":" + r3;
    var r1 := PadDecimal(m, 2) + r2;
    var r0 := ":" + r1;
    PaddedFieldReads(h, 2, r0);
    OneByte(':', r1);
    PaddedFieldReads(m, 2, r2);
    OneByte(':', r3);
    PaddedFieldReads(sec, 2, rest);
  }

  /** The fields a printed datetime can carry: the date valid as the code checks it, the clock two digits each. */
  predicate Printable(tm: Tm)
  {
    1 <= tm.year + 1900 <= 9999 && 0 <= tm.mon <= 11 && 1 <= tm.mday <= 31
    && 0 <= tm.hour <= 99 && 0 <= tm.min <= 99 && 0 <= tm.sec <= 99
  }

  /**
   * The datetime text %T, %U and %Z print is read back field for field,
   * whatever follows it; fractional seconds after it are skipped.
   */
  lemma ScanDateTime(tm: Tm, rest: string)
    requires Printable(tm)
    ensures Scan(DateTime(tm) + rest) == Scanned(Fields(tm.year + 1900, tm.mon + 1, tm.mday, tm.hour, tm.min, tm.sec), SkipFraction(rest))
  {
    assert U32(tm.year + 1900) == tm.year + 1900 && U32(tm.mon + 1) == tm.mon + 1 && U32(tm.mday) == tm.mday;
    assert U32(tm.hour) == tm.hour && U32(tm.min) == tm.min && U32(tm.sec) == tm.sec;
    DateTimeThen(tm, rest);
    var clock := PadDecimal(U32(tm.hour), 2) + (":" + (PadDecimal(U32(tm.min), 2) + (":" + (PadDecimal(U32(tm.sec), 2) + rest))));
    ScanPrintedDate(tm.year + 1900, tm.mon + 1, tm.mday, clock);
    ScanPrintedClock(tm.hour, tm.min, tm.sec, (":" + (PadDecimal(U32(tm.min), 2) + (":" + (PadDecimal(U32(tm.sec), 2) + rest)))));
    ScanPrintedClock(tm.hour, tm.min, tm.sec, rest);
  }

  /**
   * sql_time_z inverts the datetime formatting: the printed time goes back
   * to the same broken-down time, UTC when a Z follows (after any fraction)
   * or utc is set, local time otherwise.
   */
  lemma DateTimeRoundTrip(tm: Tm, rest: string, utc: bool, host: Host)
    requires Printable(tm)
    ensures TimeZ(Some(DateTime(tm) + rest), utc, host)
      == if Head(SkipFraction(rest)) == 'Z' || utc then host.timegm(tm) else host.mktime(tm)
  {
    ScanDateTime(tm, rest);
    var sc := Scan(DateTime(tm) + rest);
    assert !AllZero(sc.fields) && !Invalid(sc.fields);
    assert ToTm(sc.fields) == tm;
  }

  /** Hours, minutes and seconds are not range-checked, and the 30th of February passes. */
  lemma UncheckedClock(host: Host)
    ensures TimeZ(Some(DateTime(Tm(124, 1, 30, 25, 61, 99))), true, host) == host.timegm(Tm(124, 1, 30, 25, 61, 99))
  {
    DateTimeRoundTrip(Tm(124, 1, 30, 25, 61, 99), [], true, host);
    assert DateTime(Tm(124, 1, 30, 25, 61, 99)) + [] == DateTime(Tm(124, 1, 30, 25, 61, 99));
  }
}
