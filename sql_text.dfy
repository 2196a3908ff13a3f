/**
 * Character classes of the C locale, decimal rendering as printf does it,
 * and the decoding of a MySQL single-quoted string literal. The last one is
 * what the escaping lemmas of the model are stated against: a value is
 * injected safely when its escaped text, placed between two quotes, decodes
 * back to the value without closing the literal early.
 */
module SqlText {
  import opened Wrappers

  predicate IsDigit(c: char) { '0' <= c <= '9' }
  predicate IsAlpha(c: char) { 'A' <= c <= 'Z' || 'a' <= c <= 'z' }
  predicate IsAlnum(c: char) { IsDigit(c) || IsAlpha(c) }

  /** tolower() in the C locale. */
  function ToLower(c: char): (r: char)
    ensures IsAlpha(c) ==> 'a' <= r <= 'z'
    ensures !('A' <= c <= 'Z') ==> r == c
  {
    if 'A' <= c <= 'Z' then (c as int + 32) as char else c
  }

  /** n blanks, as the padding loops of the formatter emit them. */
  function Spaces(n: nat): (r: string)
    ensures |r| == n
    ensures forall k :: 0 <= k < n ==> r[k] == ' '
  {
    if n == 0 then [] else Spaces(n - 1) + [' ']
  }

  function Zeros(n: nat): (r: string)
    ensures |r| == n
    ensures forall k :: 0 <= k < n ==> r[k] == '0'
  {
    if n == 0 then [] else Zeros(n - 1) + ['0']
  }

  // ---------------------------------------------------------------------
  // Decimal rendering (%d, %u, %0Nd, %0Nu)
  // ---------------------------------------------------------------------

  function DigitChar(d: nat): (c: char)
    requires d < 10
    ensures IsDigit(c)
  {
    ('0' as int + d) as char
  }

  /** The decimal digits of n, most significant first, without leading zeros. */
  function Digits(n: nat): (r: string)
    ensures 1 <= |r|
    ensures forall k :: 0 <= k < |r| ==> IsDigit(r[k])
    ensures n < 10 <==> |r| == 1
  {
    if n < 10 then [DigitChar(n)] else Digits(n / 10) + [DigitChar(n % 10)]
  }

  /** The number a run of decimal digits denotes. */
  function ValueOf(s: string): nat
    requires forall k :: 0 <= k < |s| ==> IsDigit(s[k])
  {
    if s == [] then 0
    else
      assert IsDigit(s[|s| - 1]);
      ValueOf(s[..|s| - 1]) * 10 + (s[|s| - 1] as int - '0' as int)
  }

  /** Reading back the digits printed for n gives n. */
  lemma {:induction false} ValueOfDigits(n: nat)
    ensures ValueOf(Digits(n)) == n
  {
    var r := Digits(n);
    if n >= 10 {
      ValueOfDigits(n / 10);
      assert r[..|r| - 1] == Digits(n / 10);
    }
  }

  /** printf("%d", n). */
  function Decimal(n: int): string
  {
    if n < 0 then "-" + Digits(-n) else Digits(n)
  }

  /** printf("%0<w>d", n): the sign counts towards the width, zeros go after it. */
  function PadDecimal(n: int, w: nat): (r: string)
    ensures |r| >= w
  {
    if n < 0 then
      var d := Digits(-n);
      "-" + (if |d| + 1 < w then Zeros(w - 1 - |d|) else []) + d
    else
      var d := Digits(n);
      (if |d| < w then Zeros(w - |d|) else []) + d
  }

  function Pow10(w: nat): (r: nat)
    ensures 1 <= r
  {
    if w == 0 then 1 else 10 * Pow10(w - 1)
  }

  /** A number below 10^w has at most w digits. */
  lemma {:induction false} DigitsAtMost(n: nat, w: nat)
    requires 1 <= w && n < Pow10(w)
    ensures |Digits(n)| <= w
  {
    if 10 <= n {
      DigitsAtMost(n / 10, w - 1);
    }
  }

  /** %0<w>d of a number with at most w digits is exactly w characters. */
  lemma PadDecimalExact(n: nat, w: nat)
    requires 1 <= w && n < Pow10(w)
    ensures |PadDecimal(n, w)| == w
  {
    DigitsAtMost(n, w);
  }

  /** Reading back %0<w>d of a natural number gives the number. */
  lemma {:induction false} ValueOfPadDecimal(n: nat, w: nat)
    ensures forall k :: 0 <= k < |PadDecimal(n, w)| ==> IsDigit(PadDecimal(n, w)[k])
    ensures ValueOf(PadDecimal(n, w)) == n
  {
    var d := Digits(n);
    var z := if |d| < w then Zeros(w - |d|) else [];
    assert PadDecimal(n, w) == z + d;
    ZerosThenValue(z, d);
    ValueOfDigits(n);
  }

  /** Leading zeros do not change the value of a run of digits. */
  lemma {:induction false} ZerosThenValue(z: string, d: string)
    requires forall k :: 0 <= k < |z| ==> z[k] == '0'
    requires forall k :: 0 <= k < |d| ==> IsDigit(d[k])
    ensures forall k :: 0 <= k < |z + d| ==> IsDigit((z + d)[k])
    ensures ValueOf(z + d) == ValueOf(d)
    decreases |d|
  {
    if d == [] {
      assert z + d == z;
      ZerosValue(z);
    } else {
      assert (z + d)[..|z + d| - 1] == z + d[..|d| - 1];
      ZerosThenValue(z, d[..|d| - 1]);
    }
  }

  lemma {:induction false} ZerosValue(z: string)
    requires forall k :: 0 <= k < |z| ==> z[k] == '0'
    ensures ValueOf(z) == 0
    decreases |z|
  {
    if z != [] {
      ZerosValue(z[..|z| - 1]);
    }
  }

  /** The value a C int argument has once read as unsigned int. */
  function U32(n: int): (r: nat)
    ensures r < 0x1_0000_0000
  {
    n % 0x1_0000_0000
  }

  /** The value a C long long argument has once read as unsigned long long. */
  function U64(n: int): (r: nat)
    ensures r < 0x1_0000_0000_0000_0000
  {
    n % 0x1_0000_0000_0000_0000
  }

  /** The value a C int argument has once read as int: two's complement, 32 bits. */
  function I32(n: int): (r: int)
    ensures -0x8000_0000 <= r < 0x8000_0000
    ensures r % 0x1_0000_0000 == n % 0x1_0000_0000
  {
    if U32(n) < 0x8000_0000 then U32(n) else U32(n) - 0x1_0000_0000
  }

  /** The value a C long long argument has once read as long long. */
  function I64(n: int): (r: int)
    ensures -0x8000_0000_0000_0000 <= r < 0x8000_0000_0000_0000
    ensures r % 0x1_0000_0000_0000_0000 == n % 0x1_0000_0000_0000_0000
  {
    if U64(n) < 0x8000_0000_0000_0000 then U64(n) else U64(n) - 0x1_0000_0000_0000_0000
  }

  /** The byte an integer becomes when stored into a char. */
  function ByteChar(n: int): (c: char)
    ensures c as int < 256
  {
    (n % 256) as char
  }

  // ---------------------------------------------------------------------
  // MySQL string literals (default sql_mode: backslash escapes enabled)
  // ---------------------------------------------------------------------

  /** What the server makes of backslash followed by c inside a literal. */
  function Unbackslash(c: char): string
  {
    if c == '0' then "\0"
    else if c == 'b' then "\U{8}"
    else if c == 'n' then "\n"
    else if c == 'r' then "\r"
    else if c == 't' then "\t"
    else if c == 'Z' then "\U{1A}"
    else if c == '%' then "\\%"
    else if c == '_' then "\\_"
    else [c]
  }

  function Prepend(x: string, r: Option<string>): Option<string>
  {
    match r
    case None => None
    case Some(y) => Some(x + y)
  }

  /**
   * Decodes the text between the quotes of a '...' literal. None means the
   * text cannot stand there: a lone quote would end the literal early, or a
   * trailing backslash would escape the closing quote.
   */
  function Unquote(body: string): Option<string>
    decreases |body|
  {
    if body == [] then Some([])
    else if body[0] == '\'' then
      if 2 <= |body| && body[1] == '\'' then Prepend("'", Unquote(body[2..])) else None
    else if body[0] == '\\' then
      if 2 <= |body| then Prepend(Unbackslash(body[1]), Unquote(body[2..])) else None
    else Prepend([body[0]], Unquote(body[1..]))
  }

  /** Text without quotes or backslashes stands for itself. */
  lemma {:induction false} UnquotePlain(s: string)
    requires forall k :: 0 <= k < |s| ==> s[k] != '\'' && s[k] != '\\'
    ensures Unquote(s) == Some(s)
    decreases |s|
  {
    if s != [] {
      UnquotePlain(s[1..]);
      assert [s[0]] + s[1..] == s;
    }
  }

  /** Re-bracketing a concatenation, as a step the solver is told about. */
  lemma Associative(a: string, b: string, c: string)
    ensures (a + b) + c == a + (b + c)
  {
  }

  lemma PrependTwice(h: string, x: string, r: Option<string>)
    ensures Prepend(h, Prepend(x, r)) == Prepend(h + x, r)
  {
    if r.Some? {
      assert h + (x + r.value) == (h + x) + r.value;
    }
  }

  /** A body that decodes completely can be followed by any other body. */
  lemma {:induction false} UnquoteAppend(a: string, b: string)
    requires Unquote(a).Some?
    ensures Unquote(a + b) == Prepend(Unquote(a).value, Unquote(b))
    decreases |a|
  {
    var ab := a + b;
    if a == [] {
      assert ab == b;
      if Unquote(b).Some? {
        assert [] + Unquote(b).value == Unquote(b).value;
      }
    } else {
      var n := if a[0] == '\'' || a[0] == '\\' then 2 else 1;
      var h := if a[0] == '\'' then "'" else if a[0] == '\\' then Unbackslash(a[1]) else [a[0]];
      assert n <= |a|;
      assert ab[0] == a[0] && ab[n - 1] == a[n - 1] && ab[n..] == a[n..] + b;
      assert Unquote(ab) == Prepend(h, Unquote(a[n..] + b));
      assert Unquote(a) == Prepend(h, Unquote(a[n..]));
      UnquoteAppend(a[n..], b);
      PrependTwice(h, Unquote(a[n..]).value, Unquote(b));
    }
  }
}
