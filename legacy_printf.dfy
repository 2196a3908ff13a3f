/**
 * sqlprintf of sqllib.c, the deprecated formatter: it writes the text of a
 * format with its own small set of %-directives into a caller's buffer
 * through a moving pointer, ends it with a NUL and returns where the NUL is.
 */
module LegacyPrintf {
  import opened Wrappers
  import opened SqlText
  import opened FormatArgs

  /** An argument that is missing or of the wrong C type; behaviour in C is undefined. */
  datatype LegacyError = BadArgument

  /** The escape of one byte of %s and %S: LF as \n, a backslash before \, ' and ". */
  function EscL(c: char): string
  {
    if c == '\n' then "\\n"
    else if c == '\\' || c == '\'' || c == '"' then ['\\', c]
    else [c]
  }

  function EscLegacy(a: string): string
    decreases |a|
  {
    if a == [] then [] else EscLegacy(a[..|a| - 1]) + EscL(a[|a| - 1])
  }

  /** %i: the unsigned int as a quoted dotted quad, most significant octet first. */
  function Quad(n: int): string
  {
    var u := U32(n);
    "'" + Decimal(u / 0x100_0000) + "." + Decimal(u / 0x1_0000 % 256) + "."
    + Decimal(u / 0x100 % 256) + "." + Decimal(u % 256) + "'"
  }

  /** %t: sprintf("%04d%02d%02d%02d%02d%02d") of the broken-down UTC time. */
  function Compact(t: Tm): string
  {
    PadDecimal(t.year + 1900, 4) + PadDecimal(t.mon + 1, 2) + PadDecimal(t.mday, 2)
    + PadDecimal(t.hour, 2) + PadDecimal(t.min, 2) + PadDecimal(t.sec, 2)
  }

  /** The C type each directive letter reads, if any. */
  function LegacyKind(x: char): Option<Kind>
  {
    if x in "lsS" then Some(StrKind)
    else if x in "iducy" then Some(IntKind)
    else if x in "DU" then Some(LongLongKind)
    else if x == 't' then Some(TimeKind)
    else None
  }

  /** The text of directive letter x for argument a (read as LegacyKind(x)). */
  function LegacyText(x: char, a: Arg, host: Host): string
    requires LegacyKind(x).Some? && Fits(a, LegacyKind(x).value)
    requires x == 'l' ==> a.s.Some?
  {
    if x == 'l' then a.s.value
    else if x == 's' || x == 'S' then
      match a.s
      case None => "NULL"
      case Some(v) => var q := if x == 's' then "'" else ""; q + EscLegacy(v) + q
    else if x == 'i' then Quad(a.n)
    else if x == 'd' then Decimal(I32(a.n))
    else if x == 'D' then Decimal(I64(a.n))
    else if x == 'u' then Decimal(U32(a.n))
    else if x == 'U' then Decimal(U64(a.n))
    else if x == 't' then (if a.n == 0 then "0" else Compact(host.gmtime(a.n)))
    else if x == 'y' then ['\'', if ByteChar(a.n) != '\0' then 'Y' else 'N', '\'']
    else if ByteChar(a.n) == '\'' then "\"'\""
    else ['\'', ByteChar(a.n), '\'']
  }

  /**
   * One pass of the loop of sqlprintf at position i with the next argument
   * at k: where it resumes, the next argument, and the text. A '%' that ends
   * the format ends the text.
   */
  function LegacyPiece(f: string, i: nat, args: seq<Arg>, k: nat, host: Host): (r: Result<(nat, nat, string), LegacyError>)
    requires i < |f|
    ensures r.Ok? ==> i < r.value.0 <= |f| && k <= r.value.1
  {
    if f[i] != '%' then Ok((i + 1, k, [f[i]]))
    else if i + 1 == |f| then Ok((|f|, k, []))
    else
      var x := f[i + 1];
      match LegacyKind(x)
      case None => Ok((i + 2, k, [x]))
      case Some(kind) =>
        if k < |args| && Fits(args[k], kind) && (x == 'l' ==> args[k].s.Some?)
        then Ok((i + 2, k + 1, LegacyText(x, args[k], host)))
        else Err(BadArgument)
  }

  function LegacyFrom(f: string, i: nat, args: seq<Arg>, k: nat, host: Host, out: string): Result<string, LegacyError>
    requires i <= |f|
    decreases |f| - i
  {
    if i == |f| then Ok(out)
    else
      match LegacyPiece(f, i, args, k, host)
      case Err(e) => Err(e)
      case Ok((j, k', piece)) => LegacyFrom(f, j, args, k', host, out + piece)
  }

  /** The text sqlprintf writes before its NUL. */
  function Legacy(f: string, args: seq<Arg>, host: Host): Result<string, LegacyError>
  {
    LegacyFrom(f, 0, args, 0, host, [])
  }

  // ---------------------------------------------------------------------
  // The loop over the caller's buffer
  // ---------------------------------------------------------------------

  /** The text so far is a prefix of the whole text. */
  lemma {:induction false} LegacyPrefix(f: string, i: nat, args: seq<Arg>, k: nat, host: Host, out: string)
    requires i <= |f| && LegacyFrom(f, i, args, k, host, out).Ok?
    ensures out <= LegacyFrom(f, i, args, k, host, out).value
    decreases |f| - i
  {
    if i < |f| {
      var (j, k', piece) := LegacyPiece(f, i, args, k, host).value;
      LegacyPrefix(f, j, args, k', host, out + piece);
    }
  }

  lemma LegacyStep(f: string, i: nat, args: seq<Arg>, k: nat, host: Host, out: string)
    requires i < |f| && LegacyFrom(f, i, args, k, host, out).Ok?
    ensures LegacyPiece(f, i, args, k, host).Ok?
    ensures var next := LegacyPiece(f, i, args, k, host).value;
      LegacyFrom(f, next.0, args, next.1, host, out + next.2) == LegacyFrom(f, i, args, k, host, out)
  {
  }

  /** The copy loop of %s and %S. */
  method EscapeLoop(a: string) returns (r: string)
    ensures r == EscLegacy(a)
  {
    r := [];
    var j := 0;
    while j < |a|
      invariant j <= |a|
      invariant r == EscLegacy(a[..j])
      decreases |a| - j
    {
      assert a[..j + 1][..j] == a[..j];
      if a[j] == '\n' {
        r := r + "\\n";
      } else {
        if a[j] == '\\' || a[j] == '\'' || a[j] == '"' {
          r := r + "\\";
        }
        r := r + [a[j]];
      }
      j := j + 1;
    }
    assert a[..j] == a;
  }

  /** The switch of sqlprintf for one directive letter and its argument. */
  method DirectiveText(x: char, a: Arg, host: Host) returns (r: string)
    requires LegacyKind(x).Some? && Fits(a, LegacyKind(x).value)
    requires x == 'l' ==> a.s.Some?
    ensures r == LegacyText(x, a, host)
  {
    if (x == 's' || x == 'S') && a.s.Some? {
      var body := EscapeLoop(a.s.value);
      var q := if x == 's' then "'" else "";
      r := q + body + q;
    } else {
      r := LegacyText(x, a, host);
    }
  }

  /** One pass of the loop: where it resumes, the next argument and the bytes to write. */
  method NextLegacy(f: string, i: nat, args: seq<Arg>, k: nat, host: Host) returns (j: nat, k': nat, piece: string)
    requires i < |f| && LegacyPiece(f, i, args, k, host).Ok?
    ensures LegacyPiece(f, i, args, k, host).value.0 == j && LegacyPiece(f, i, args, k, host).value.1 == k'
    ensures LegacyPiece(f, i, args, k, host).value.2 == piece
  {
    if f[i] != '%' {
      return i + 1, k, [f[i]];
    }
    if i + 1 == |f| {
      return |f|, k, [];
    }
    var x := f[i + 1];
    if LegacyKind(x).None? {
      return i + 2, k, [x];
    }
    piece := DirectiveText(x, args[k], host);
    return i + 2, k + 1, piece;
  }

  /** Writes s at q[p..], leaving the rest of q as it was. */
  method Write(q: array<char>, start: nat, p: nat, s: string)
    requires start <= p && p + |s| <= q.Length
    modifies q
    ensures q[..start] == old(q[..start]) && q[start..p + |s|] == old(q[start..p]) + s
    ensures q[p + |s|..] == old(q[p + |s|..])
  {
    var j := 0;
    while j < |s|
      invariant j <= |s|
      invariant q[..p] == old(q[..p]) && q[p..p + j] == s[..j]
      invariant forall m :: p + j <= m < q.Length ==> q[m] == old(q[m])
      decreases |s| - j
    {
      q[p + j] := s[j];
      assert q[p..p + j + 1] == q[p..p + j] + [s[j]];
      assert s[..j + 1] == s[..j] + [s[j]];
      j := j + 1;
    }
    assert q[..start] == q[..p][..start];
    assert q[start..p] == q[..p][start..];
    assert q[start..p + |s|] == q[start..p] + q[p..p + |s|];
    assert s[..j] == s;
  }

  /** Ends the text with a NUL at p, leaving the rest of q as it was. */
  method Terminate(q: array<char>, start: nat, p: nat)
    requires start <= p < q.Length
    modifies q
    ensures q[..start] == old(q[..start]) && q[start..p] == old(q[start..p]) && q[p] == '\0'
    ensures q[p + 1..] == old(q[p + 1..])
  {
    q[p] := '\0';
    assert q[..start] == q[..p][..start];
    assert q[start..p] == q[..p][start..];
  }

  /**
   * sqlprintf: writes the text of f at q[start..] followed by a NUL and
   * returns the position of the NUL. The caller provides room for both.
   */
  method SqlPrintf(q: array<char>, start: nat, f: string, args: seq<Arg>, host: Host) returns (end: nat)
    requires Legacy(f, args, host).Ok?
    requires start + |Legacy(f, args, host).value| < q.Length
    modifies q
    ensures end == start + |Legacy(f, args, host).value|
    ensures q[start..end] == Legacy(f, args, host).value && q[end] == '\0'
    ensures q[..start] == old(q[..start]) && q[end + 1..] == old(q[end + 1..])
  {
    ghost var total := Legacy(f, args, host).value;
    var i, k, p := 0, 0, start;
    ghost var done: string := [];
    while i < |f|
      invariant i <= |f| && p == start + |done| && p <= q.Length
      invariant q[..start] == old(q[..start]) && q[start..p] == done && q[p..] == old(q[p..])
      invariant LegacyFrom(f, i, args, k, host, done) == Legacy(f, args, host)
      decreases |f| - i
    {
      LegacyStep(f, i, args, k, host, done);
      var j, k', piece := NextLegacy(f, i, args, k, host);
      LegacyPrefix(f, j, args, k', host, done + piece);
      assert |done + piece| <= |total|;
      Write(q, start, p, piece);
      i, k, p, done := j, k', p + |piece|, done + piece;
    }
    Terminate(q, start, p);
    end := p;
  }

  // ---------------------------------------------------------------------
  // Properties
  // ---------------------------------------------------------------------

  lemma EscLDecodes(c: char)
    ensures Unquote(EscL(c)) == Some([c])
  {
    var e := EscL(c);
    if c == '\n' || c == '\\' || c == '\'' || c == '"' {
      assert e[2..] == [] && Unquote([]) == Some([]);
      assert Unbackslash(e[1]) == [c];
      assert [c] + [] == [c];
    } else {
      assert e[1..] == [] && Unquote([]) == Some([]);
      assert [c] + [] == [c];
    }
  }

  /** The body of a %s is a MySQL literal of exactly the string's bytes. */
  lemma {:induction false} LegacyStringDecodes(a: string)
    ensures Unquote(EscLegacy(a)) == Some(a)
    decreases |a|
  {
    if a != [] {
      var init, c := a[..|a| - 1], a[|a| - 1];
      LegacyStringDecodes(init);
      EscLDecodes(c);
      UnquoteAppend(EscLegacy(init), EscL(c));
      assert init + [c] == a;
    }
  }

  /** %s quotes the escaped text, %S leaves the quotes off, NULL is written as NULL either way. */
  lemma StringDirective(a: Option<string>, host: Host)
    requires Fits(StrArg(a), StrKind)
    ensures LegacyText('s', StrArg(a), host) == if a.None? then "NULL" else "'" + EscLegacy(a.value) + "'"
    ensures LegacyText('S', StrArg(a), host) == if a.None? then "NULL" else EscLegacy(a.value)
    ensures a.Some? ==> Unquote(LegacyText('S', StrArg(a), host)) == a
  {
    if a.Some? {
      LegacyStringDecodes(a.value);
      assert "" + EscLegacy(a.value) + "" == EscLegacy(a.value);
    }
  }

  /** The four octets of %i are bytes and put together give the unsigned value. */
  lemma QuadOctets(n: int)
    ensures var u := U32(n);
      var (a, b, c, d) := (u / 0x100_0000, u / 0x1_0000 % 256, u / 0x100 % 256, u % 256);
      a < 256 && b < 256 && c < 256 && d < 256
      && a * 0x100_0000 + b * 0x1_0000 + c * 0x100 + d == u
      && Quad(n) == "'" + Decimal(a) + "." + Decimal(b) + "." + Decimal(c) + "." + Decimal(d) + "'"
  {
    var u := U32(n);
    assert u / 0x100 == (u / 0x1_0000) * 256 + u / 0x100 % 256;
    assert u / 0x1_0000 == (u / 0x100_0000) * 256 + u / 0x1_0000 % 256;
  }

  /** %y is 'Y' for a non-zero char and 'N' for zero; %c of a quote uses double quotes. */
  lemma YesNoAndQuote(n: int, host: Host)
    requires -0x8000_0000 <= n < 0x8000_0000
    ensures LegacyText('y', IntArg(n), host) == (if n % 256 != 0 then "'Y'" else "'N'")
    ensures n % 256 == '\'' as int ==> LegacyText('c', IntArg(n), host) == "\"'\""
    ensures n % 256 != '\'' as int ==> LegacyText('c', IntArg(n), host) == ['\'', (n % 256) as char, '\'']
  {
  }

  /** %t of 0 is the single digit 0; any other time is 14 digits for years 0 to 9999. */
  lemma TimeDirective(t: int, host: Host)
    requires -0x8000_0000_0000_0000 <= t < 0x8000_0000_0000_0000
    ensures t == 0 ==> LegacyText('t', TimeArg(t), host) == "0"
    ensures t != 0 && InRange(host.gmtime(t)) ==> |LegacyText('t', TimeArg(t), host)| == 14
  {
    if t != 0 && InRange(host.gmtime(t)) {
      var tm := host.gmtime(t);
      CompactField(tm.year + 1900, 4);
      CompactField(tm.mon + 1, 2);
      CompactField(tm.mday, 2);
      CompactField(tm.hour, 2);
      CompactField(tm.min, 2);
      CompactField(tm.sec, 2);
    }
  }

  lemma CompactField(n: int, w: nat)
    requires 1 <= w && 0 <= n < Pow10(w)
    ensures |PadDecimal(n, w)| == w
  {
    PadDecimalExact(n, w);
  }

  /** A '%' followed by a letter sqlprintf does not know gives that letter: %% is a percent sign. */
  lemma UnknownLetter(f: string, i: nat, args: seq<Arg>, k: nat, host: Host)
    requires i + 1 < |f| && f[i] == '%' && LegacyKind(f[i + 1]).None?
    ensures LegacyPiece(f, i, args, k, host) == Ok((i + 2, k, [f[i + 1]]))
  {
  }

  /** 50%% of 7 is written 50% of 7. */
  lemma PercentExample(host: Host)
    ensures Legacy("50%%", [], host) == Ok("50%")
  {
    var f := "50%%";
    assert LegacyPiece(f, 0, [], 0, host) == Ok((1, 0, "5"));
    assert LegacyPiece(f, 1, [], 0, host) == Ok((2, 0, "0"));
    assert LegacyPiece(f, 2, [], 0, host) == Ok((4, 0, "%"));
    assert [] + "5" == "5" && "5" + "0" == "50" && "50" + "%" == "50%";
    assert LegacyFrom(f, 4, [], 0, host, "50%") == Ok("50%");
    assert LegacyFrom(f, 2, [], 0, host, "50") == Ok("50%");
    assert LegacyFrom(f, 1, [], 0, host, "5") == Ok("50%");
  }

  // ---------------------------------------------------------------------
  // A '%' at the end of the format
  // ---------------------------------------------------------------------

  /**
   * The loop as written: for a '%' the switch reads the next byte, and for
   * the terminating NUL the default case copies it and the loop steps past it.
   */
  function LegacyPieceAsWritten(f: string, i: nat, args: seq<Arg>, k: nat, host: Host): (r: Result<(nat, nat, string), LegacyError>)
    requires i < |f|
  {
    if f[i] == '%' && i + 1 == |f| then Ok((i + 2, k, "\0"))
    else LegacyPiece(f, i, args, k, host)
  }

  /** With a trailing '%' the written loop resumes beyond the NUL and keeps reading memory after the format. */
  lemma TrailingPercentReadsPastEnd(f: string, args: seq<Arg>, k: nat, host: Host)
    requires 0 < |f| && f[|f| - 1] == '%'
    ensures LegacyPieceAsWritten(f, |f| - 1, args, k, host).Ok?
    ensures LegacyPieceAsWritten(f, |f| - 1, args, k, host).value.0 == |f| + 1
    ensures LegacyPieceAsWritten(f, |f| - 1, args, k, host).value.2 == "\0"
  {
  }

  /** The corrected loop stops at the end of the format: 100% is written as 100. */
  lemma TrailingPercentStops(host: Host)
    ensures Legacy("100%", [], host) == Ok("100")
  {
    var f := "100%";
    assert LegacyPiece(f, 3, [], 0, host) == Ok((4, 0, []));
    assert [] + "1" == "1" && "1" + "0" == "10" && "10" + "0" == "100" && "100" + [] == "100";
    assert LegacyFrom(f, 3, [], 0, host, "100") == Ok("100");
    assert LegacyFrom(f, 2, [], 0, host, "10") == Ok("100");
    assert LegacyFrom(f, 1, [], 0, host, "1") == Ok("100");
  }
}
