/**
 * The directive parser of sql_vsprintf (sqllib.c): after a '%', the flags
 * '!', '#' and '-', a width ('*' or digits), a precision ('.' then '*' or
 * digits), a length modifier, and the position of the conversion letter.
 */
module Directive {
  import opened SqlText

  datatype Width = Given(n: nat) | WidthStar
  datatype Precision = Unset | PrecStar | Prec(n: nat)
  datatype Length = NoLength | Long | LongLong | LongDouble

  datatype Spec = Spec(free: bool, alt: bool, left: bool, width: Width, precision: Precision, length: Length)

  /** A parsed directive; conv is the position of its conversion letter, |f| when the format ends first. */
  datatype Parsed = Parsed(spec: Spec, conv: nat)

  predicate IsFlag(c: char) { c == '!' || c == '#' || c == '-' }

  function FlagsEnd(f: string, k: nat): (r: nat)
    requires k <= |f|
    ensures k <= r <= |f|
    ensures forall j :: k <= j < r ==> IsFlag(f[j])
    ensures r == |f| || !IsFlag(f[r])
    decreases |f| - k
  {
    if k < |f| && IsFlag(f[k]) then FlagsEnd(f, k + 1) else k
  }

  function DigitsEnd(f: string, k: nat): (r: nat)
    requires k <= |f|
    ensures k <= r <= |f|
    ensures forall j :: k <= j < r ==> IsDigit(f[j])
    ensures r == |f| || !IsDigit(f[r])
    decreases |f| - k
  {
    if k < |f| && IsDigit(f[k]) then DigitsEnd(f, k + 1) else k
  }

  /** The width field starting at a, and where it ends. */
  function WidthAt(f: string, a: nat): (r: (Width, nat))
    requires a <= |f|
    ensures a <= r.1 <= |f|
  {
    if a < |f| && f[a] == '*' then (WidthStar, a + 1)
    else var e := DigitsEnd(f, a); (Given(ValueOf(f[a..e])), e)
  }

  /** The precision field starting at b, and where it ends. */
  function PrecisionAt(f: string, b: nat): (r: (Precision, nat))
    requires b <= |f|
    ensures b <= r.1 <= |f|
  {
    if b < |f| && f[b] == '.' then
      if b + 1 < |f| && f[b + 1] == '*' then (PrecStar, b + 2)
      else var e := DigitsEnd(f, b + 1); (Prec(ValueOf(f[b + 1..e])), e)
    else (Unset, b)
  }

  /** The length modifier starting at c, and where it ends; h, hh, q, j, z and t change nothing. */
  function LengthAt(f: string, c: nat): (r: (Length, nat))
    requires c <= |f|
    ensures c <= r.1 <= |f|
  {
    if c + 1 < |f| && f[c] == 'h' && f[c + 1] == 'h' then (NoLength, c + 2)
    else if c + 1 < |f| && f[c] == 'l' && f[c + 1] == 'l' then (LongLong, c + 2)
    else if c < |f| && f[c] == 'l' then (Long, c + 1)
    else if c < |f| && f[c] == 'L' then (LongDouble, c + 1)
    else if c < |f| && f[c] in "hqjzt" then (NoLength, c + 1)
    else (NoLength, c)
  }

  /** Where the length modifier of the directive at i would start. */
  function ModifierStart(f: string, i: nat): (r: nat)
    requires i < |f|
    ensures i < r <= |f|
  {
    var a := FlagsEnd(f, i + 1);
    PrecisionAt(f, WidthAt(f, a).1).1
  }

  function Parse(f: string, i: nat): (r: Parsed)
    requires i < |f| && f[i] == '%'
    ensures i < r.conv <= |f|
    ensures r.conv - i <= 1 ==> r.spec == Spec(false, false, false, Given(0), Unset, NoLength)
  {
    var a := FlagsEnd(f, i + 1);
    var flags := f[i + 1..a];
    var (width, b) := WidthAt(f, a);
    var (precision, c) := PrecisionAt(f, b);
    var (length, d) := LengthAt(f, c);
    Parsed(Spec('!' in flags, '#' in flags, '-' in flags, width, precision, length), d)
  }

  /**
   * The position of the conversion letter as sqllib.c reaches it, reading the
   * format as a C string: strchr("hqjzt", *f) also finds the terminating NUL,
   * so a directive cut off before any length modifier steps over it.
   */
  function ConversionAsWritten(f: string, i: nat): nat
    requires i < |f| && f[i] == '%'
  {
    if ModifierStart(f, i) == |f| then |f| + 1 else Parse(f, i).conv
  }

  /**
   * The position the outer loop of sqllib.c resumes at after the directive
   * at i: the NUL at |f| passes the conversion-letter test (strchr finds the
   * terminator there too) and is then stepped over.
   */
  function ResumeAsWritten(f: string, i: nat, conversions: string): nat
    requires i < |f| && f[i] == '%'
  {
    var c := ConversionAsWritten(f, i);
    if |f| < c then c
    else if c == |f| then (if c - i > 20 then c else c + 1)
    else if f[c] == '%' then c + 1
    else if f[c] !in conversions || c - i > 20 then c
    else c + 1
  }

  /** A directive the format ends inside leaves the scan beyond the terminating NUL, as written. */
  lemma CutDirectiveReadsPastEnd(f: string, i: nat, conversions: string)
    requires i < |f| && f[i] == '%'
    requires Parse(f, i).conv == |f| && |f| - i <= 20
    ensures |f| < ResumeAsWritten(f, i, conversions)
  {
  }

  /** The flag loop: which of '!', '#' and '-' follow the '%', and where they end. */
  method ScanFlags(f: string, i: nat) returns (free: bool, alt: bool, left: bool, p: nat)
    requires i < |f|
    ensures p == FlagsEnd(f, i + 1)
    ensures free == ('!' in f[i + 1..p]) && alt == ('#' in f[i + 1..p]) && left == ('-' in f[i + 1..p])
  {
    free, alt, left := false, false, false;
    p := i + 1;
    while p < |f| && IsFlag(f[p])
      invariant i + 1 <= p <= |f|
      invariant FlagsEnd(f, p) == FlagsEnd(f, i + 1)
      invariant free == ('!' in f[i + 1..p]) && alt == ('#' in f[i + 1..p]) && left == ('-' in f[i + 1..p])
      decreases |f| - p
    {
      assert f[i + 1..p + 1] == f[i + 1..p] + [f[p]];
      if f[p] == '!' {
        free := true;
      } else if f[p] == '#' {
        alt := true;
      } else {
        left := true;
      }
      p := p + 1;
    }
  }

  method ScanWidth(f: string, a: nat) returns (r: (Width, nat))
    requires a <= |f|
    ensures r == WidthAt(f, a)
  {
    if a < |f| && f[a] == '*' {
      r := (WidthStar, a + 1);
    } else {
      var n, e := DigitRun(f, a);
      r := (Given(n), e);
    }
  }

  method ScanPrecision(f: string, b: nat) returns (r: (Precision, nat))
    requires b <= |f|
    ensures r == PrecisionAt(f, b)
  {
    r := (Unset, b);
    if b < |f| && f[b] == '.' {
      if b + 1 < |f| && f[b + 1] == '*' {
        r := (PrecStar, b + 2);
      } else {
        var n, e := DigitRun(f, b + 1);
        r := (Prec(n), e);
      }
    }
  }

  method ScanLength(f: string, c: nat) returns (r: (Length, nat))
    requires c <= |f|
    ensures r == LengthAt(f, c)
  {
    if c + 1 < |f| && f[c] == 'h' && f[c + 1] == 'h' {
      r := (NoLength, c + 2);
    } else if c + 1 < |f| && f[c] == 'l' && f[c + 1] == 'l' {
      r := (LongLong, c + 2);
    } else if c < |f| && f[c] == 'l' {
      r := (Long, c + 1);
    } else if c < |f| && f[c] == 'L' {
      r := (LongDouble, c + 1);
    } else if c < |f| && f[c] in "hqjzt" {
      r := (NoLength, c + 1);
    } else {
      r := (NoLength, c);
    }
  }

  /** The directive scan of sql_vsprintf, field by field. */
  method ParseDirective(f: string, i: nat) returns (r: Parsed)
    requires i < |f| && f[i] == '%'
    ensures r == Parse(f, i)
  {
    var free, alt, left, a := ScanFlags(f, i);
    var w := ScanWidth(f, a);
    var p := ScanPrecision(f, w.1);
    var l := ScanLength(f, p.1);
    r := Parsed(Spec(free, alt, left, w.0, p.0, l.0), l.1);
  }

  /** width = width * 10 + digit, over the digits from k. */
  method DigitRun(f: string, k: nat) returns (n: nat, e: nat)
    requires k <= |f|
    ensures e == DigitsEnd(f, k)
    ensures n == ValueOf(f[k..e])
  {
    n, e := 0, k;
    while e < |f| && IsDigit(f[e])
      invariant k <= e <= |f|
      invariant DigitsEnd(f, e) == DigitsEnd(f, k)
      invariant forall j :: k <= j < e ==> IsDigit(f[j])
      invariant n == ValueOf(f[k..e])
      decreases |f| - e
    {
      assert f[k..e + 1][..e - k] == f[k..e];
      n := n * 10 + (f[e] as int - '0' as int);
      e := e + 1;
    }
  }
}
