/**
 * The growable query buffer of sqllib.c (sql_string_t: query, len, ptr) and
 * the operations on it: sql_vsprintf / sql_sprintf appending a formatted
 * text, sql_printf building a fresh one, sql_back_s and sql_free_s.
 */
module SqlBuffer {
  import opened Wrappers
  import opened SqlText
  import opened FormatArgs
  import opened Directive
  import opened Formatter

  /** sql_string_t: query holds len bytes, the text is the first ptr of them. */
  class SqlString {
    var query: array?<char>
    var len: nat
    var ptr: nat

    ghost predicate Valid()
      reads this, query
    {
      (query == null ==> len == 0 && ptr == 0)
      && (query != null ==> query.Length == len && ptr < len)
    }

    /** The text built so far. */
    function Text(): string
      reads this, query
      requires Valid()
    {
      if query == null then [] else query[..ptr]
    }

    /** The byte at ptr ends the text as a C string. */
    predicate Terminated()
      reads this, query
      requires Valid()
    {
      query != null ==> query[ptr] == '\0'
    }

    /** sql_string_t s = { 0 }. */
    constructor ()
      ensures Valid() && query == null && len == 0 && ptr == 0
    {
      query := null;
      len := 0;
      ptr := 0;
    }

    /** realloc(query, len += extra): the bytes already there are kept. */
    method Grow(extra: nat)
      requires Valid() && 0 < extra
      modifies this
      ensures Valid() && query != null && fresh(query)
      ensures len == old(len) + extra && ptr == old(ptr)
      ensures Text() == old(Text())
    {
      var bigger := new char[len + extra](_ => '\0');
      if query != null {
        forall j | 0 <= j < len {
          bigger[j] := query[j];
        }
      }
      query := bigger;
      len := len + extra;
    }

    /** The space check of sqllib.c: afterwards at least need + 101 bytes are free. */
    method Reserve(need: nat)
      requires Valid()
      modifies this
      ensures Valid() && query != null && (query == old(query) || fresh(query))
      ensures len == GrowAsWritten(old(ptr), old(len), need) && ptr + need + 100 < len
      ensures ptr == old(ptr) && Text() == old(Text())
    {
      if ptr + need + 100 >= len {
        Grow(need + 1000);
      }
    }

    /** Appends one byte, growing the buffer first when no byte would be left for the NUL. */
    method Put(c: char)
      requires Valid()
      modifies this, query
      ensures Valid() && query != null && (query == old(query) || fresh(query))
      ensures Text() == old(Text()) + [c]
    {
      if ptr + 1 >= len {
        Grow(1000);
      }
      assert query[..ptr] == old(Text());
      query[ptr] := c;
      ptr := ptr + 1;
      assert query[..ptr] == old(Text()) + [c];
    }

    /** Appends every byte of s in turn. */
    method PutAll(s: string)
      requires Valid()
      modifies this, query
      ensures Valid() && (query == old(query) || fresh(query))
      ensures old(query) != null ==> query != null
      ensures Text() == old(Text()) + s
    {
      var j := 0;
      while j < |s|
        invariant j <= |s|
        invariant Valid() && (query == old(query) || fresh(query))
        invariant old(query) != null ==> query != null
        invariant Text() == old(Text()) + s[..j]
        decreases |s| - j
      {
        Put(s[j]);
        assert s[..j + 1] == s[..j] + [s[j]];
        j := j + 1;
      }
      assert s[..j] == s;
    }

    /** count spaces, by the padding loops of %s. */
    method PutSpaces(count: nat)
      requires Valid()
      modifies this, query
      ensures Valid() && (query == old(query) || fresh(query))
      ensures old(query) != null ==> query != null
      ensures Text() == old(Text()) + Spaces(count)
    {
      var j := 0;
      while j < count
        invariant j <= count
        invariant Valid() && (query == old(query) || fresh(query))
        invariant old(query) != null ==> query != null
        invariant Text() == old(Text()) + Spaces(j)
        decreases count - j
      {
        Put(' ');
        j := j + 1;
      }
    }

    /** The escaped form of one byte, as the copy loop of %#s writes it. */
    method PutEscChar(c: char)
      requires Valid()
      modifies this, query
      ensures Valid() && (query == old(query) || fresh(query))
      ensures old(query) != null ==> query != null
      ensures Text() == old(Text()) + EscChar(c)
    {
      if c == '\n' {
        PutAll("\\n");
      } else if c == '\r' {
        PutAll("\\r");
      } else if Special(c) {
        PutAll(['\\', c]);
      } else {
        Put(c);
      }
    }

    /** The copy loop of %#s and %#S over the shown bytes. */
    method PutEscaped(s: string)
      requires Valid()
      modifies this, query
      ensures Valid() && (query == old(query) || fresh(query))
      ensures old(query) != null ==> query != null
      ensures Text() == old(Text()) + EscS(s)
    {
      var j := 0;
      while j < |s|
        invariant j <= |s|
        invariant Valid() && (query == old(query) || fresh(query))
        invariant old(query) != null ==> query != null
        invariant Text() == old(Text()) + EscS(s[..j])
        decreases |s| - j
      {
        EscSStep(s, j);
        ghost var t := Text();
        assert t == old(Text()) + EscS(s[..j]);
        PutEscChar(s[j]);
        assert Text() == t + EscChar(s[j]);
        Associative(old(Text()), EscS(s[..j]), EscChar(s[j]));
        j := j + 1;
      }
      assert s[..j] == s;
    }

    /** The first pass of %s: how many bytes are shown, and the room it asks for. */
    static method Measure(s: string, alt: bool, width: int, precision: int) returns (l: nat, q: nat)
      ensures l == Shown(s, precision)
      ensures q == (if alt then l + CountSpecial(s[..l]) else l) + (if width != 0 && l < width then width - l else 0)
    {
      l := 0;
      var specials := 0;
      while (precision < 0 || l < precision) && l < |s|
        invariant l <= |s| && (precision >= 0 ==> l <= precision)
        invariant specials == CountSpecial(s[..l])
        decreases |s| - l
      {
        assert s[..l + 1][..l] == s[..l];
        if Special(s[l]) {
          specials := specials + 1;
        }
        l := l + 1;
      }
      q := if alt then l + specials else l;
      if width != 0 && l < width {
        q := q + (width - l);
      }
    }

    /** The shown bytes of a %s, escaped for '#'. */
    method PutShown(x: string, alt: bool)
      requires Valid()
      modifies this, query
      ensures Valid() && (query == old(query) || fresh(query))
      ensures old(query) != null ==> query != null
      ensures Text() == old(Text()) + (if alt then EscS(x) else x)
    {
      if alt {
        PutEscaped(x);
      } else {
        PutAll(x);
      }
    }

    /** The shown bytes and the padding, on the side '-' chooses. */
    method PutField(x: string, alt: bool, pad: nat, left: bool)
      requires Valid()
      modifies this, query
      ensures Valid() && (query == old(query) || fresh(query))
      ensures old(query) != null ==> query != null
      ensures var body := if alt then EscS(x) else x;
        Text() == old(Text()) + (if left then body + Spaces(pad) else Spaces(pad) + body)
    {
      ghost var body := if alt then EscS(x) else x;
      if left {
        PutShown(x, alt);
        PutSpaces(pad);
        Associative(old(Text()), body, Spaces(pad));
      } else {
        PutSpaces(pad);
        PutShown(x, alt);
        Associative(old(Text()), Spaces(pad), body);
      }
    }

    /** The %s and %S case of sql_vsprintf. */
    method PutString(a: Option<string>, alt: bool, left: bool, quoted: bool, width: int, precision: int)
      requires Valid()
      modifies this, query
      ensures Valid() && (query == old(query) || fresh(query))
      ensures old(query) != null ==> query != null
      ensures Text() == old(Text()) + RenderString(a, alt, left, quoted, width, precision)
    {
      if a.None? {
        if alt {
          PutAll("NULL");
        }
        return;
      }
      var s := a.value;
      var l, q := Measure(s, alt, width, precision);
      Reserve(q);
      var pad := if width != 0 && l < width then width - l else 0;
      var quote := if alt && quoted then "'" else "";
      ghost var t0 := Text();
      PutAll(quote);
      ghost var t1 := Text();
      PutField(s[..l], alt, pad, left);
      ghost var t2 := Text();
      PutAll(quote);
      StringPieces(s, alt, left, quoted, width, precision, t0, t1, t2, Text());
    }

    /** Puts a NUL after the text, when there is a buffer to put it in. */
    method Terminate()
      requires Valid()
      modifies query
      ensures Valid() && Terminated() && Text() == old(Text())
    {
      if query != null {
        query[ptr] := '\0';
      }
    }

    /** Appends what one pass of the loop decided to write. */
    method PutOutput(o: Output)
      requires Valid()
      modifies this, query
      ensures Valid() && (query == old(query) || fresh(query))
      ensures old(query) != null ==> query != null
      ensures Text() == old(Text()) + OutputText(o)
    {
      match o
      case Bytes(t) => PutAll(t);
      case StringArg(a, alt, left, quoted, width, precision) => PutString(a, alt, left, quoted, width, precision);
    }

    /** sql_vsprintf and sql_sprintf: append the text of format f and its arguments. */
    method AppendFormat(f: string, args: seq<Arg>, host: Host)
      requires Valid()
      requires Format(f, args, host).Ok?
      modifies this, query
      ensures Valid() && Terminated()
      ensures Text() == old(Text()) + Format(f, args, host).value
      ensures f == [] ==> query == old(query)
      ensures f != [] ==> query != null
    {
      var i, k := 0, 0;
      ghost var done: string := [];
      while i < |f|
        invariant i <= |f|
        invariant Valid() && (query == old(query) || fresh(query))
        invariant i == 0 ==> query == old(query)
        invariant 0 < i ==> query != null
        invariant Text() == old(Text()) + done
        invariant FormatFrom(f, i, args, k, host, done) == Format(f, args, host)
        decreases |f| - i
      {
        FormatStep(f, i, args, k, host, done);
        var j, k', o := NextPiece(f, i, args, k, host);
        Reserve(0);
        PutOutput(o);
        Associative(old(Text()), done, OutputText(o));
        i, k, done := j, k', done + OutputText(o);
      }
      Terminate();
    }

    /** sql_back_s on a buffer: drop and return the last byte, keeping the NUL after the text. */
    method Back() returns (r: char)
      requires Valid()
      modifies this, query
      ensures Valid() && query == old(query) && len == old(len)
      ensures old(Text()) == [] ==> r == '\0' && ptr == old(ptr) && Text() == old(Text())
      ensures old(Text()) != [] ==> Text() + [r] == old(Text()) && Terminated()
    {
      if query == null || ptr == 0 {
        return '\0';
      }
      ptr := ptr - 1;
      r := query[ptr];
      query[ptr] := '\0';
    }

    /** sql_free_s: release the buffer and empty the string. */
    method Free()
      modifies this
      ensures Valid() && query == null && len == 0 && ptr == 0 && Text() == []
    {
      query := null;
      len := 0;
      ptr := 0;
    }
  }

  /** Escaping one more byte of s appends that byte's escape. */
  lemma EscSStep(s: string, j: nat)
    requires j < |s|
    ensures EscS(s[..j + 1]) == EscS(s[..j]) + EscChar(s[j])
  {
    assert s[..j + 1][..j] == s[..j];
  }

  /** What one pass of the loop of sql_vsprintf writes: bytes, or the text of a %s or %S. */
  datatype Output =
    | Bytes(text: string)
    | StringArg(a: Option<string>, alt: bool, left: bool, quoted: bool, width: int, precision: int)

  function OutputText(o: Output): string
  {
    match o
    case Bytes(t) => t
    case StringArg(a, alt, left, quoted, width, precision) => RenderString(a, alt, left, quoted, width, precision)
  }

  /** The branches of one pass of the loop of sql_vsprintf: where it resumes, the next argument, and what it writes. */
  method NextPiece(f: string, i: nat, args: seq<Arg>, k: nat, host: Host) returns (j: nat, k': nat, o: Output)
    requires i < |f| && Piece(f, i, args, k, host).Ok?
    ensures Piece(f, i, args, k, host).value.0 == j && Piece(f, i, args, k, host).value.1 == k'
    ensures Piece(f, i, args, k, host).value.2 == OutputText(o)
  {
    if f[i] != '%' {
      return i + 1, k, Bytes([f[i]]);
    }
    var p := ParseDirective(f, i);
    var c := p.conv;
    if c == |f| {
      return |f|, k, Bytes(f[i..]);
    }
    if f[c] == '%' {
      return c + 1, k, Bytes("%");
    }
    if f[c] !in Conversions || c - i > 20 {
      return c, k, Bytes(f[i..c]);
    }
    j, k', o := NextConversion(f, i, args, k, host);
  }

  /** The branch of NextPiece for a known conversion whose arguments fit. */
  method NextConversion(f: string, i: nat, args: seq<Arg>, k: nat, host: Host) returns (j: nat, k': nat, o: Output)
    requires i < |f| && f[i] == '%' && Piece(f, i, args, k, host).Ok?
    requires Parse(f, i).conv < |f| && f[Parse(f, i).conv] != '%'
    requires f[Parse(f, i).conv] in Conversions && Parse(f, i).conv - i <= 20
    ensures Piece(f, i, args, k, host).Ok?
    ensures Piece(f, i, args, k, host).value.0 == j && Piece(f, i, args, k, host).value.1 == k'
    ensures Piece(f, i, args, k, host).value.2 == OutputText(o)
  {
    PieceConverts(f, i, args, k, host);
    var p := Parse(f, i);
    j, k' := p.conv + 1, k + |Consumes(p.spec, f[p.conv])|;
    o := Conversion(f, i, p, args, k, host);
  }

  /** A conversion whose arguments fit: %s and %S are written by the string loops, the rest as rendered. */
  method Conversion(f: string, i: nat, p: Parsed, args: seq<Arg>, k: nat, host: Host) returns (o: Output)
    requires i < p.conv < |f| && AllFit(args, k, Consumes(p.spec, f[p.conv]))
    ensures OutputText(o) == Render(f, i, p, args, k, host)
  {
    var c := f[p.conv];
    var s := p.spec;
    if c == 's' || c == 'S' {
      var v := ValueArg(s, c, args, k);
      o := StringArg(v.s, s.alt, s.left, c == 's', WidthArg(s, c, args, k), PrecisionArg(s, c, args, k));
      RenderIsString(f, i, p, args, k, host);
    } else {
      o := Bytes(Render(f, i, p, args, k, host));
    }
  }

  /** A known conversion whose arguments fit resumes after its letter, past the arguments it reads. */
  lemma PieceConverts(f: string, i: nat, args: seq<Arg>, k: nat, host: Host)
    requires i < |f| && f[i] == '%' && Piece(f, i, args, k, host).Ok?
    requires Parse(f, i).conv < |f| && f[Parse(f, i).conv] != '%'
    requires f[Parse(f, i).conv] in Conversions && Parse(f, i).conv - i <= 20
    ensures var p := Parse(f, i);
      AllFit(args, k, Consumes(p.spec, f[p.conv]))
      && Piece(f, i, args, k, host) == Ok((p.conv + 1, k + |Consumes(p.spec, f[p.conv])|, Render(f, i, p, args, k, host)))
  {
  }

  /** %s and %S render through RenderString with the value, width and precision the arguments give. */
  lemma RenderIsString(f: string, i: nat, p: Parsed, args: seq<Arg>, k: nat, host: Host)
    requires i < p.conv < |f| && (f[p.conv] == 's' || f[p.conv] == 'S')
    requires AllFit(args, k, Consumes(p.spec, f[p.conv]))
    ensures var c := f[p.conv];
      Render(f, i, p, args, k, host)
      == RenderString(ValueArg(p.spec, c, args, k).s, p.spec.alt, p.spec.left, c == 's', WidthArg(p.spec, c, args, k), PrecisionArg(p.spec, c, args, k))
  {
  }

  /** An unfinished format that succeeds has a successful next piece, and goes on after it. */
  lemma FormatStep(f: string, i: nat, args: seq<Arg>, k: nat, host: Host, out: string)
    requires i < |f| && FormatFrom(f, i, args, k, host, out).Ok?
    ensures Piece(f, i, args, k, host).Ok?
    ensures var next := Piece(f, i, args, k, host).value;
      FormatFrom(f, next.0, args, next.1, host, out + next.2) == FormatFrom(f, i, args, k, host, out)
  {
  }

  /** The three steps of the %s case put together give RenderString. */
  lemma StringPieces(s: string, alt: bool, left: bool, quoted: bool, width: int, precision: int,
                     t0: string, t1: string, t2: string, t3: string)
    requires var l := Shown(s, precision);
      var pad := if width != 0 && l < width then width - l else 0;
      var quote := if alt && quoted then "'" else "";
      var body := if alt then EscS(s[..l]) else s[..l];
      && t1 == t0 + quote
      && t2 == t1 + (if left then body + Spaces(pad) else Spaces(pad) + body)
      && t3 == t2 + quote
    ensures t3 == t0 + RenderString(Some(s), alt, left, quoted, width, precision)
  {
    var l := Shown(s, precision);
    var pad := if width != 0 && l < width then width - l else 0;
    var spaces := if width != 0 && l < width then Spaces(width - l) else [];
    assert Spaces(pad) == spaces;
    var quote := if alt && quoted then "'" else "";
    var body := if alt then EscS(s[..l]) else s[..l];
    var mid := if left then body + spaces else spaces + body;
    assert RenderString(Some(s), alt, left, quoted, width, precision) == quote + mid + quote;
    Associative(t0, quote, mid);
    Associative(t0 + quote, mid, quote);
    Associative(t0, quote + mid, quote);
  }

  /** sql_back_s: 0 for a NULL string pointer, else Back. */
  method BackS(q: SqlString?) returns (r: char)
    requires q != null ==> q.Valid()
    modifies if q == null then {} else {q, q.query}
    ensures q == null ==> r == '\0'
    ensures q != null ==> q.Valid() && (old(q.Text()) == [] ==> r == '\0' && q.Text() == old(q.Text()))
    ensures q != null && old(q.Text()) != [] ==> q.Text() + [r] == old(q.Text()) && q.Terminated()
  {
    if q == null {
      return '\0';
    }
    r := q.Back();
  }

  /** sql_printf: the formatted text in a fresh buffer, NULL for an empty format. */
  method Printf(f: string, args: seq<Arg>, host: Host) returns (r: Option<string>)
    requires Format(f, args, host).Ok?
    ensures f == [] <==> r.None?
    ensures r.Some? ==> r.value == Format(f, args, host).value
  {
    var s := new SqlString();
    s.AppendFormat(f, args, host);
    if s.query == null {
      return None;
    }
    return Some(s.Text());
  }
}
