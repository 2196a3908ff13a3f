/**
 * What sql_vsprintf (sqllib.c) appends for a format and its arguments, as
 * functions: one Piece per plain byte or directive, rendered by the custom
 * conversions s, S, c, B, T, U and Z or handed to the host vsnprintf, and
 * the number of arguments each directive consumes.
 */
module Formatter {
  import opened Wrappers
  import opened SqlText
  import opened FormatArgs
  import opened Directive

  /** The conversion letters the formatter accepts; the others are copied through. */
  const Conversions := "diouxXeEfFgGaAcsCSpnmTUBZ"

  /** The conversions the formatter renders itself. */
  const Custom := "scTUBSZ"

  /** An argument list that does not match the format (undefined behaviour in C). */
  datatype FormatError = BadArgument

  // ---------------------------------------------------------------------
  // Arguments
  // ---------------------------------------------------------------------

  function IntKindFor(l: Length): Kind
  {
    if l == Long then LongKind else if l == LongLong then LongLongKind else IntKind
  }

  /** The value argument a conversion reads: %C reads a wint_t and %n an int pointer. */
  function ValueKinds(c: char, l: Length): (r: seq<Kind>)
    ensures |r| <= 1
    ensures c in Custom ==> |r| == 1
  {
    if c == 's' || c == 'S' then [StrKind]
    else if c in "cBdiouxX" then [IntKindFor(l)]
    else if c in "TUZ" then [TimeKind]
    else if c in "eEfFgGaA" then [if l == LongDouble then LongDoubleKind else DoubleKind]
    else if c == 'p' || c == 'n' then [PtrKind]
    else if c == 'C' then [IntKind]
    else []
  }

  /** The argument the code steps over after a standard conversion: nothing for %C and %n. */
  function ValueKindsAsWritten(c: char, l: Length): seq<Kind>
  {
    if c == 'C' || c == 'n' then [] else ValueKinds(c, l)
  }

  /** Every conversion but %m reads exactly one value argument. */
  lemma OneValuePerConversion(c: char, l: Length)
    requires c in Conversions && c != 'm'
    ensures |ValueKinds(c, l)| == 1
  {
  }

  /** As written, %C and %n leave their argument for the next directive. */
  lemma WideCharAndCountSkipNothing(l: Length)
    ensures ValueKindsAsWritten('C', l) == [] && ValueKindsAsWritten('n', l) == []
    ensures |ValueKinds('C', l)| == 1 && |ValueKinds('n', l)| == 1
  {
  }

  /** A '*' width, then a '*' precision, then the value. */
  function Consumes(s: Spec, c: char): seq<Kind>
  {
    (if s.width == WidthStar then [IntKind] else [])
    + (if s.precision == PrecStar then [IntKind] else [])
    + ValueKinds(c, s.length)
  }

  // ---------------------------------------------------------------------
  // %s and %S
  // ---------------------------------------------------------------------

  /** The bytes %#s puts a backslash before (LF and CR become \n and \r). */
  predicate Special(c: char) { c == '\'' || c == '\\' || c == '\n' || c == '\r' || c == '`' || c == '"' }

  function EscChar(c: char): string
  {
    if c == '\n' then "\\n"
    else if c == '\r' then "\\r"
    else if Special(c) then ['\\', c]
    else [c]
  }

  /** The escaping loop of %#s and %#S. */
  function EscS(a: string): string
    decreases |a|
  {
    if a == [] then [] else EscS(a[..|a| - 1]) + EscChar(a[|a| - 1])
  }

  function CountSpecial(a: string): nat
    decreases |a|
  {
    if a == [] then 0 else CountSpecial(a[..|a| - 1]) + (if Special(a[|a| - 1]) then 1 else 0)
  }

  /** A backslash pair decodes by the MySQL escape table. */
  lemma UnquotePair(c: char)
    ensures Unquote(['\\', c]) == Some(Unbackslash(c))
  {
    var body := ['\\', c];
    assert body[2..] == [] && body[1] == c;
    assert Unquote([]) == Some([]);
    assert Unbackslash(c) + [] == Unbackslash(c);
  }

  /** A doubled quote decodes to one quote. */
  lemma UnquoteDoubled()
    ensures Unquote("''") == Some("'")
  {
    var body := "''";
    assert body[2..] == [] && body[1] == '\'';
    assert Unquote([]) == Some([]);
    assert "'" + [] == "'";
  }

  lemma EscCharDecodes(c: char)
    ensures Unquote(EscChar(c)) == Some([c])
  {
    if c == '\n' {
      UnquotePair('n');
    } else if c == '\r' {
      UnquotePair('r');
    } else if Special(c) {
      UnquotePair(c);
    } else {
      UnquotePlain([c]);
    }
  }

  /** An escaped string decodes back to itself inside a MySQL literal. */
  lemma {:induction false} EscSDecodes(a: string)
    ensures Unquote(EscS(a)) == Some(a)
    decreases |a|
  {
    if a != [] {
      var a', c := a[..|a| - 1], a[|a| - 1];
      assert EscS(a) == EscS(a') + EscChar(c);
      EscSDecodes(a');
      UnquoteAppend(EscS(a'), EscChar(c));
      EscCharDecodes(c);
      assert Prepend(a', Some([c])) == Some(a' + [c]);
      assert a' + [c] == a;
    }
  }

  /** Escaping adds one byte per special byte, as the length pass counts. */
  lemma {:induction false} EscSLength(a: string)
    ensures |EscS(a)| == |a| + CountSpecial(a)
    decreases |a|
  {
    if a != [] {
      EscSLength(a[..|a| - 1]);
    }
  }

  lemma {:induction false} EscSAppend(a: string, b: string)
    ensures EscS(a + b) == EscS(a) + EscS(b)
    decreases |b|
  {
    if b == [] {
      assert a + b == a;
    } else {
      var b', c := b[..|b| - 1], b[|b| - 1];
      var ab := a + b;
      assert ab[..|ab| - 1] == a + b' && ab[|ab| - 1] == c;
      assert EscS(ab) == EscS(a + b') + EscChar(c);
      assert EscS(b) == EscS(b') + EscChar(c);
      EscSAppend(a, b');
      Associative(EscS(a), EscS(b'), EscChar(c));
    }
  }

  /** Text without special bytes is not changed by escaping. */
  lemma {:induction false} EscSPlain(a: string)
    requires forall k :: 0 <= k < |a| ==> !Special(a[k])
    ensures EscS(a) == a
    decreases |a|
  {
    if a != [] {
      EscSPlain(a[..|a| - 1]);
    }
  }

  lemma EscSOne(c: char)
    ensures EscS([c]) == EscChar(c)
  {
    assert [c][..0] == [];
  }

  /** How many bytes of a %s shows: all of them, or at most the precision when it is not negative. */
  function Shown(a: string, precision: int): (l: nat)
    ensures l <= |a|
    ensures precision >= 0 ==> l <= precision
  {
    if precision < 0 || |a| <= precision then |a| else precision
  }

  /** The text of %s, %S, %#s and %#S (quoted is true for s). */
  function RenderString(a: Option<string>, alt: bool, left: bool, quoted: bool, width: int, precision: int): string
  {
    match a
    case None => if alt then "NULL" else ""
    case Some(a) =>
      var l := Shown(a, precision);
      var pad := if width != 0 && l < width then Spaces(width - l) else [];
      var body := if alt then EscS(a[..l]) else a[..l];
      var q := if alt && quoted then "'" else "";
      q + (if left then body + pad else pad + body) + q
  }

  /** The escaped text with its padding decodes to the text with its padding. */
  lemma PaddedDecodes(text: string, pad: string, left: bool)
    requires forall k :: 0 <= k < |pad| ==> pad[k] == ' '
    ensures Unquote(if left then EscS(text) + pad else pad + EscS(text)) == Some(if left then text + pad else pad + text)
  {
    EscSDecodes(text);
    UnquotePlain(pad);
    if left {
      UnquoteAppend(EscS(text), pad);
    } else {
      UnquoteAppend(pad, EscS(text));
    }
  }

  /** The pieces of a %s rendering of a present string. */
  lemma RenderStringParts(a: string, alt: bool, left: bool, quoted: bool, width: int, precision: int)
    ensures var l := Shown(a, precision);
      var pad := if width != 0 && l < width then Spaces(width - l) else [];
      var body := if alt then EscS(a[..l]) else a[..l];
      var q := if alt && quoted then "'" else "";
      RenderString(Some(a), alt, left, quoted, width, precision) == q + (if left then body + pad else pad + body) + q
  {
  }

  /** r is a MySQL literal of text: between quotes when quoted, a bare body otherwise. */
  predicate LiteralOf(r: string, text: string, quoted: bool)
  {
    if quoted
    then 2 <= |r| && r[0] == '\'' && r[|r| - 1] == '\'' && Unquote(r[1..|r| - 1]) == Some(text)
    else Unquote(r) == Some(text)
  }

  /** The bytes %s shows, padded to the width on the side '-' chooses. */
  function PaddedText(a: string, left: bool, width: int, precision: int): string
  {
    var l := Shown(a, precision);
    var pad := if width != 0 && l < width then Spaces(width - l) else [];
    if left then a[..l] + pad else pad + a[..l]
  }

  /** Text that decodes, with or without quotes around it. */
  lemma Enclosed(r: string, inner: string, text: string, quoted: bool)
    requires r == (if quoted then "'" else "") + inner + (if quoted then "'" else "")
    requires Unquote(inner) == Some(text)
    ensures LiteralOf(r, text, quoted)
  {
    if quoted {
      assert r[1..|r| - 1] == inner;
    } else {
      assert r == inner;
    }
  }

  /** %#s is a MySQL literal of the padded, truncated text; %#S is its body. */
  lemma QuotedStringDecodes(a: string, left: bool, quoted: bool, width: int, precision: int)
    ensures LiteralOf(RenderString(Some(a), true, left, quoted, width, precision), PaddedText(a, left, width, precision), quoted)
  {
    var l := Shown(a, precision);
    var pad := if width != 0 && l < width then Spaces(width - l) else [];
    var inner := if left then EscS(a[..l]) + pad else pad + EscS(a[..l]);
    PaddedDecodes(a[..l], pad, left);
    RenderStringParts(a, true, left, quoted, width, precision);
    Enclosed(RenderString(Some(a), true, left, quoted, width, precision), inner, PaddedText(a, left, width, precision), quoted);
  }

  /** Plain %s: the first l bytes, padded with spaces up to the width on the side '-' chooses. */
  lemma PlainStringLayout(a: string, left: bool, quoted: bool, width: int, precision: int)
    ensures var l := Shown(a, precision);
      var r := RenderString(Some(a), false, left, quoted, width, precision);
      |r| == (if width > l then width else l)
      && (left ==> r[..l] == a[..l] && forall k :: l <= k < |r| ==> r[k] == ' ')
      && (!left ==> r[|r| - l..] == a[..l] && forall k :: 0 <= k < |r| - l ==> r[k] == ' ')
  {
    var l := Shown(a, precision);
    var pad := if width != 0 && l < width then Spaces(width - l) else [];
    var body := a[..l];
    RenderStringParts(a, false, left, quoted, width, precision);
    var r := RenderString(Some(a), false, left, quoted, width, precision);
    var inner := if left then body + pad else pad + body;
    assert r == [] + inner + [];
    assert r == inner;
    assert |pad| == (if width > l then width - l else 0);
    if left {
      assert r[..l] == body;
      assert forall k :: l <= k < |r| ==> r[k] == pad[k - l];
    } else {
      assert r[|r| - l..] == body;
      assert forall k :: 0 <= k < |r| - l ==> r[k] == pad[k];
    }
  }

  /** What the length pass of sqllib.c reserves for a %s: the shown bytes, their escapes and the padding. */
  function ReservedAsWritten(a: string, alt: bool, width: int, precision: int): nat
  {
    var l := Shown(a, precision);
    var q := if alt then l + CountSpecial(a[..l]) else l;
    q + (if width != 0 && l < width then width - l else 0)
  }

  /** The bytes the copy loop of sqllib.c emits: a positive precision limits them, 0 does not. */
  function StringBodyAsWritten(a: string, precision: int): string
  {
    if precision > 0 then a[..Shown(a, precision)] else a
  }

  /** The realloc rule of sqllib.c: grow by need + 1000 when fewer than need + 101 bytes are free. */
  function GrowAsWritten(ptr: nat, len: nat, need: nat): nat
  {
    if ptr + need + 100 >= len then len + need + 1000 else len
  }

  /** As written, %.0s of a 2000-byte string into a fresh buffer writes 2000 bytes into 1000. */
  lemma PrecisionZeroOverrun()
    ensures var a := Zeros(2000);
      var len := GrowAsWritten(0, GrowAsWritten(0, 0, 0), ReservedAsWritten(a, false, 0, 0));
      len == 1000 && |StringBodyAsWritten(a, 0)| == 2000
  {
  }

  /** The rendered %s stays within what the length pass reserves, plus its two quotes. */
  lemma RenderStringWithinReserve(a: string, alt: bool, left: bool, quoted: bool, width: int, precision: int)
    ensures |RenderString(Some(a), alt, left, quoted, width, precision)| <= ReservedAsWritten(a, alt, width, precision) + 2
  {
    EscSLength(a[..Shown(a, precision)]);
  }

  // ---------------------------------------------------------------------
  // %c, %B, %T, %U, %Z
  // ---------------------------------------------------------------------

  /** %c and %#c of the value v: NULL for 0, else the byte, quoted for '#'. */
  function RenderChar(v: int, alt: bool): string
  {
    if v == 0 then "NULL"
    else
      var q := if alt then "'" else "";
      q + (if alt then CharBody(ByteChar(v)) else [ByteChar(v)]) + q
  }

  /** %#c as written: the tests look at the whole value and a backslash is left bare. */
  function RenderCharAsWritten(v: int, alt: bool): string
  {
    if v == 0 then "NULL"
    else
      var q := if alt then "'" else "";
      q + (if alt && v == 10 then "\\n" else if alt && v == 39 then "''" else [ByteChar(v)]) + q
  }

  /** The text %#c puts between its quotes. */
  function CharBody(b: char): string
  {
    if b == '\n' then "\\n" else if b == '\'' then "''" else if b == '\\' then "\\\\" else [b]
  }

  lemma CharBodyDecodes(b: char)
    ensures Unquote(CharBody(b)) == Some([b])
  {
    if b == '\n' {
      UnquotePair('n');
    } else if b == '\'' {
      UnquoteDoubled();
    } else if b == '\\' {
      UnquotePair('\\');
    } else {
      UnquotePlain([b]);
    }
  }

  /** %#c is a MySQL literal of the byte. */
  lemma CharLiteralDecodes(v: int)
    requires v != 0
    ensures var r := RenderChar(v, true);
      2 <= |r| && r[0] == '\'' && r[|r| - 1] == '\'' && Unquote(r[1..|r| - 1]) == Some([ByteChar(v)])
  {
    var inner := CharBody(ByteChar(v));
    CharBodyDecodes(ByteChar(v));
    var r := RenderChar(v, true);
    assert r == "'" + inner + "'";
    assert r[1..|r| - 1] == inner;
  }

  /** As written, %#c of a backslash, or of 295 (a quote once stored in a char), leaves the literal open. */
  lemma CharAsWrittenBreaksLiteral()
    ensures RenderCharAsWritten(92, true) == "'\\'" && Unquote("\\") == None
    ensures RenderCharAsWritten(295, true) == "'''" && Unquote("'") == None
  {
  }

  /** %B and %#B. */
  function RenderBool(v: int, alt: bool): string
  {
    if alt then (if v != 0 then "'Y'" else "'N'") else (if v != 0 then "TRUE" else "FALSE")
  }

  /** At most the first w bytes when w is positive. */
  function Truncate(s: string, w: int): (r: string)
    ensures |r| <= |s| && r == s[..|r|]
    ensures 0 < w ==> |r| <= w
    ensures |r| < |s| ==> |r| == w
  {
    if 0 < w && w < |s| then s[..w] else s
  }

  /** %T, %U and %Z of time t, given its broken-down fields. */
  function RenderTime(t: int, alt: bool, width: int, tm: Tm): string
  {
    var q := if alt then "'" else "";
    q + (if t == 0 then "0000-00-00" else Truncate(DateTime(tm), width)) + q
  }

  /** A time of 0 is the date 0000-00-00 alone; any other time is the datetime, cut to a positive width. */
  lemma TimeLayout(t: int, alt: bool, width: int, tm: Tm)
    requires InRange(tm)
    ensures var q := if alt then "'" else "";
      var r := RenderTime(t, alt, width, tm);
      (t == 0 ==> r == q + "0000-00-00" + q)
      && (t != 0 ==> |r| == 2 * |q| + (if 0 < width < 19 then width else 19))
      && (t != 0 ==> r[|q|..|r| - |q|] == DateTime(tm)[..|r| - 2 * |q|])
  {
    DateTimeShape(tm);
  }

  // ---------------------------------------------------------------------
  // Directives and the whole format
  // ---------------------------------------------------------------------

  /** The width a custom conversion uses: its digits, or the int a '*' reads. */
  function WidthArg(s: Spec, c: char, args: seq<Arg>, k: nat): int
    requires AllFit(args, k, Consumes(s, c))
  {
    if s.width == WidthStar then
      assert Consumes(s, c)[0] == IntKind && Fits(args[k], IntKind);
      args[k].n
    else s.width.n
  }

  /** The precision a custom conversion uses: -2 when unset, else its digits or the int a '*' reads. */
  function PrecisionArg(s: Spec, c: char, args: seq<Arg>, k: nat): int
    requires AllFit(args, k, Consumes(s, c))
  {
    var w := if s.width == WidthStar then 1 else 0;
    match s.precision
    case Unset => -2
    case PrecStar =>
      assert Consumes(s, c)[w] == IntKind && Fits(args[k + w], IntKind);
      args[k + w].n
    case Prec(n) => n
  }

  /** The value argument of a custom conversion, after any '*' arguments. */
  function ValueArg(s: Spec, c: char, args: seq<Arg>, k: nat): (a: Arg)
    requires c in Custom && AllFit(args, k, Consumes(s, c))
    ensures Fits(a, ValueKinds(c, s.length)[0])
  {
    var w := if s.width == WidthStar then 1 else 0;
    var pr := if s.precision == PrecStar then 1 else 0;
    assert Consumes(s, c)[w + pr] == ValueKinds(c, s.length)[0];
    args[k + w + pr]
  }

  /** The text of a custom or standard conversion whose arguments fit. */
  function Render(f: string, i: nat, p: Parsed, args: seq<Arg>, k: nat, host: Host): string
    requires i < p.conv < |f|
    requires AllFit(args, k, Consumes(p.spec, f[p.conv]))
  {
    var c := f[p.conv];
    var s := p.spec;
    if c !in Custom then host.vsnprintf(f[i..p.conv + 1], args[k..k + |Consumes(s, c)|])
    else
      var width := WidthArg(s, c, args, k);
      var v := ValueArg(s, c, args, k);
      if c == 's' || c == 'S' then RenderString(v.s, s.alt, s.left, c == 's', width, PrecisionArg(s, c, args, k))
      else if c == 'c' then RenderChar(v.n, s.alt)
      else if c == 'B' then RenderBool(v.n, s.alt)
      else RenderTime(v.n, s.alt, width, if c == 'T' then host.localtime(v.n) else host.gmtime(v.n))
  }

  /**
   * One pass of the loop of sql_vsprintf at position i with the next
   * argument at k: where it resumes, the next argument, and the text.
   */
  function Piece(f: string, i: nat, args: seq<Arg>, k: nat, host: Host): (r: Result<(nat, nat, string), FormatError>)
    requires i < |f|
    ensures r.Ok? ==> i < r.value.0 <= |f| && k <= r.value.1
  {
    if f[i] != '%' then Ok((i + 1, k, [f[i]]))
    else
      var p := Parse(f, i);
      var c := p.conv;
      if c == |f| then Ok((|f|, k, f[i..]))
      else if f[c] == '%' then Ok((c + 1, k, "%"))
      else if f[c] !in Conversions || c - i > 20 then Ok((c, k, f[i..c]))
      else
        var kinds := Consumes(p.spec, f[c]);
        if !AllFit(args, k, kinds) then Err(BadArgument)
        else Ok((c + 1, k + |kinds|, Render(f, i, p, args, k, host)))
  }

  function FormatFrom(f: string, i: nat, args: seq<Arg>, k: nat, host: Host, out: string): (r: Result<string, FormatError>)
    requires i <= |f|
    ensures r.Ok? ==> out <= r.value
    decreases |f| - i
  {
    if i == |f| then Ok(out)
    else
      match Piece(f, i, args, k, host)
      case Err(e) => Err(e)
      case Ok((j, k', piece)) => FormatFrom(f, j, args, k', host, out + piece)
  }

  /** The text sql_vsprintf appends for format f. */
  function Format(f: string, args: seq<Arg>, host: Host): Result<string, FormatError>
  {
    FormatFrom(f, 0, args, 0, host, [])
  }

  // ---------------------------------------------------------------------
  // Properties
  // ---------------------------------------------------------------------

  /** A directive reads the arguments Consumes names, starting at k, and no others. */
  lemma PieceConsumes(f: string, i: nat, args: seq<Arg>, k: nat, host: Host)
    requires i < |f| && f[i] == '%'
    requires Parse(f, i).conv < |f| && f[Parse(f, i).conv] in Conversions && Parse(f, i).conv - i <= 20
    ensures var p := Parse(f, i);
      var kinds := Consumes(p.spec, f[p.conv]);
      Piece(f, i, args, k, host).Ok? <==> AllFit(args, k, kinds)
    ensures Piece(f, i, args, k, host).Ok? ==>
      Piece(f, i, args, k, host).value.1 == k + |Consumes(Parse(f, i).spec, f[Parse(f, i).conv])|
  {
  }

  /** Everything else a Piece produces reads no argument. */
  lemma OtherPiecesConsumeNothing(f: string, i: nat, args: seq<Arg>, k: nat, host: Host)
    requires i < |f|
    requires f[i] != '%' || Parse(f, i).conv == |f| || f[Parse(f, i).conv] == '%'
      || f[Parse(f, i).conv] !in Conversions || Parse(f, i).conv - i > 20
    ensures Piece(f, i, args, k, host).Ok? && Piece(f, i, args, k, host).value.1 == k
  {
  }

  /** A directive the format ends inside is copied as it stands and ends the scan. */
  lemma CutDirectiveCopied(f: string, i: nat, args: seq<Arg>, k: nat, host: Host)
    requires i < |f| && f[i] == '%' && Parse(f, i).conv == |f|
    ensures Piece(f, i, args, k, host) == Ok((|f|, k, f[i..]))
  {
  }

  /** Bytes other than '%' are appended unchanged. */
  lemma {:induction false} PlainRunCopied(f: string, i: nat, j: nat, args: seq<Arg>, k: nat, host: Host, out: string)
    requires i <= j <= |f|
    requires forall m :: i <= m < j ==> f[m] != '%'
    ensures FormatFrom(f, i, args, k, host, out) == FormatFrom(f, j, args, k, host, out + f[i..j])
    decreases j - i
  {
    if i == j {
      assert out + f[i..j] == out;
    } else {
      assert Piece(f, i, args, k, host) == Ok((i + 1, k, [f[i]]));
      PlainRunCopied(f, i + 1, j, args, k, host, out + [f[i]]);
      assert out + [f[i]] + f[i + 1..j] == out + f[i..j];
    }
  }

  /** A format without directives is its own text. */
  lemma PlainFormat(f: string, args: seq<Arg>, host: Host)
    requires forall m :: 0 <= m < |f| ==> f[m] != '%'
    ensures Format(f, args, host) == Ok(f)
  {
    PlainRunCopied(f, 0, |f|, args, 0, host, []);
    assert [] + f[0..|f|] == f;
  }

  /**
   * A directive whose conversion byte is '%', whatever flags, width,
   * precision and length stand before it, appends one '%', reads no
   * argument and resumes after it.
   */
  lemma PercentLiteral(f: string, i: nat, args: seq<Arg>, k: nat, host: Host, out: string)
    requires i < |f| && f[i] == '%'
    requires Parse(f, i).conv < |f| && f[Parse(f, i).conv] == '%'
    ensures FormatFrom(f, i, args, k, host, out) == FormatFrom(f, Parse(f, i).conv + 1, args, k, host, out + "%")
  {
  }

  /**
   * A directive ending on a byte that is no conversion, or longer than 20
   * bytes, is copied up to that byte, which is then copied as plain text:
   * no argument is read.
   */
  lemma UnknownCopied(f: string, i: nat, args: seq<Arg>, k: nat, host: Host, out: string)
    requires i < |f| && f[i] == '%'
    requires Parse(f, i).conv < |f| && f[Parse(f, i).conv] != '%'
    requires f[Parse(f, i).conv] !in Conversions || Parse(f, i).conv - i > 20
    ensures FormatFrom(f, i, args, k, host, out) == FormatFrom(f, Parse(f, i).conv, args, k, host, out + f[i..Parse(f, i).conv])
    ensures FormatFrom(f, i, args, k, host, out)
      == FormatFrom(f, Parse(f, i).conv + 1, args, k, host, out + f[i..Parse(f, i).conv + 1])
  {
    var c := Parse(f, i).conv;
    assert Piece(f, c, args, k, host) == Ok((c + 1, k, [f[c]]));
    assert out + f[i..c] + [f[c]] == out + f[i..c + 1];
  }

  /** %%, also after flags and a width, is one '%'. */
  lemma PercentExamples(args: seq<Arg>, host: Host)
    ensures Format("50%%", args, host) == Ok("50%")
    ensures Format("%-5%", args, host) == Ok("%")
  {
    var f := "50%%";
    PlainRunCopied(f, 0, 2, args, 0, host, []);
    assert [] + f[0..2] == "50";
    assert Parse(f, 2).conv == 3;
    PercentLiteral(f, 2, args, 0, host, "50");
    assert "50" + "%" == "50%";
    var g := "%-5%";
    assert Parse(g, 0).conv == 3;
    PercentLiteral(g, 0, args, 0, host, []);
    assert [] + "%" == "%";
  }

  /** An unknown letter is copied with its directive. */
  lemma UnknownExample(args: seq<Arg>, host: Host)
    ensures Format("%y", args, host) == Ok("%y")
  {
    var h := "%y";
    assert Parse(h, 0).conv == 1;
    assert h[1] !in Conversions;
    UnknownCopied(h, 0, args, 0, host, []);
    assert [] + h[0..2] == "%y";
  }

  /** A '%' the format ends on is copied and ends the scan. */
  lemma TrailingPercentCopied(args: seq<Arg>, host: Host)
    ensures Format("100%", args, host) == Ok("100%")
  {
    var f := "100%";
    PlainRunCopied(f, 0, 3, args, 0, host, []);
    assert [] + f[0..3] == "100";
    assert Parse(f, 3).conv == 4;
    assert Piece(f, 3, args, 0, host) == Ok((4, 0, "%"));
    assert "100" + "%" == "100%";
  }

  /** Escaping text with one special byte escapes that byte alone. */
  lemma EscSSpecial(p: string, c: char, q: string)
    requires forall k :: 0 <= k < |p| ==> !Special(p[k])
    requires forall k :: 0 <= k < |q| ==> !Special(q[k])
    ensures EscS(p + [c] + q) == p + EscChar(c) + q
  {
    EscSAppend(p + [c], q);
    EscSAppend(p, [c]);
    EscSPlain(p);
    EscSPlain(q);
    EscSOne(c);
  }

  /** %#s of a quote and of a backslash, from the demonstration in sqllib.c. */
  lemma EscapeExamples()
    ensures RenderString(Some("te'st3"), true, false, true, 0, -2) == "'te\\'st3'"
    ensures RenderString(Some("te\\st4"), true, false, true, 0, -2) == "'te\\\\st4'"
  {
    var a := "te'st3";
    assert RenderString(Some(a), true, false, true, 0, -2) == "'te\\'st3'" by {
      assert Shown(a, -2) == 6 && a[..6] == a;
      EscSSpecial("te", '\'', "st3");
      assert a == "te" + ['\''] + "st3";
      assert EscChar('\'') == "\\'";
      assert "te" + "\\'" + "st3" == "te\\'st3";
      RenderStringParts(a, true, false, true, 0, -2);
      assert "'" + ([] + "te\\'st3") + "'" == "'te\\'st3'";
    }
    var b := "te\\st4";
    assert RenderString(Some(b), true, false, true, 0, -2) == "'te\\\\st4'" by {
      assert Shown(b, -2) == 6 && b[..6] == b;
      EscSSpecial("te", '\\', "st4");
      assert b == "te" + ['\\'] + "st4";
      assert EscChar('\\') == "\\\\";
      assert "te" + "\\\\" + "st4" == "te\\\\st4";
      RenderStringParts(b, true, false, true, 0, -2);
      assert "'" + ([] + "te\\\\st4") + "'" == "'te\\\\st4'";
    }
  }

  /** Padding goes inside the quotes, before the text or, with '-', after it. */
  lemma PaddingExamples()
    ensures RenderString(Some("test7"), true, false, true, 10, 4) == "'      test'"
    ensures RenderString(Some("test6"), true, true, true, 10, -2) == "'test6     '"
  {
    assert Shown("test7", 4) == 4 && "test7"[..4] == "test";
    EscSPlain("test");
    assert Spaces(6) == "      ";
    RenderStringParts("test7", true, false, true, 10, 4);
    assert "'" + ("      " + "test") + "'" == "'      test'";
    assert Shown("test6", -2) == 5 && "test6"[..5] == "test6";
    EscSPlain("test6");
    assert Spaces(5) == "     ";
    RenderStringParts("test6", true, true, true, 10, -2);
    assert "'" + ("test6" + "     ") + "'" == "'test6     '";
  }

  /** Plain %s copies; NULL is NULL with '#' and nothing without. */
  lemma PlainAndNullExamples()
    ensures RenderString(Some("test"), false, false, false, 0, -2) == "test"
    ensures RenderString(None, true, false, true, 0, -2) == "NULL"
    ensures RenderString(None, false, false, true, 0, -2) == ""
  {
    assert "test"[..4] == "test";
  }

  /** The character and boolean directives of the demonstration in sqllib.c. */
  lemma CharAndBoolExamples()
    ensures RenderChar('a' as int, false) == "a" && RenderChar('a' as int, true) == "'a'"
    ensures RenderChar('\'' as int, false) == "'" && RenderChar('\'' as int, true) == "''''"
    ensures RenderChar(0, true) == "NULL"
    ensures RenderBool(1, false) == "TRUE" && RenderBool(0, false) == "FALSE"
    ensures RenderBool(7, true) == "'Y'" && RenderBool(0, true) == "'N'"
  {
  }

  /**
   * As written, a standard conversion gets only the 100 bytes the loop-top
   * check keeps free: one wider than the buffer moves ptr by vsnprintf's
   * untruncated count, past len.
   */
  lemma StandardOverrun(host: Host)
    requires |host.vsnprintf("%2000d", [IntArg(1)])| == 2000
    ensures GrowAsWritten(0, 0, 0) == 1000
    ensures Piece("%2000d", 0, [IntArg(1)], 0, host) == Ok((6, 1, host.vsnprintf("%2000d", [IntArg(1)])))
  {
    var g := "%2000d";
    var args := [IntArg(1)];
    assert FlagsEnd(g, 1) == 1;
    assert DigitsEnd(g, 1) == 5;
    assert WidthAt(g, 1).1 == 5 && WidthAt(g, 1).0.Given?;
    assert PrecisionAt(g, 5) == (Unset, 5);
    assert LengthAt(g, 5) == (NoLength, 5);
    var p := Parse(g, 0);
    assert p.conv == 5 && p.spec.width != WidthStar && p.spec.precision == Unset && p.spec.length == NoLength;
    assert Consumes(p.spec, 'd') == [IntKind];
    assert AllFit(args, 0, [IntKind]);
    assert 'd' !in Custom && 'd' in Conversions;
    assert Render(g, 0, p, args, 0, host) == host.vsnprintf(g[0..6], args[0..1]);
    assert Piece(g, 0, args, 0, host) == Ok((6, 1, Render(g, 0, p, args, 0, host)));
    assert g[0..6] == g;
    assert args[0..1] == args;
  }

  /** As written, a directive of more than 20 characters is copied whole: 1001 bytes into a fresh 1000-byte buffer. */
  lemma VerbatimOverrun(host: Host)
    ensures GrowAsWritten(0, 0, 0) == 1000
    ensures var f := "%" + seq(1000, _ => '-') + "d";
      Piece(f, 0, [], 0, host) == Ok((1001, 0, f[..1001])) && 1000 < |f[..1001]|
  {
    var f := "%" + seq(1000, _ => '-') + "d";
    assert forall j :: 1 <= j < 1001 ==> IsFlag(f[j]);
    assert f[1001] == 'd';
    var p := Parse(f, 0);
    assert FlagsEnd(f, 1) == 1001;
    assert DigitsEnd(f, 1001) == 1001;
    assert WidthAt(f, 1001) == (Given(0), 1001);
    assert PrecisionAt(f, 1001) == (Unset, 1001);
    assert LengthAt(f, 1001) == (NoLength, 1001);
    assert p.conv == 1001;
  }
}
