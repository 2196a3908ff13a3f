/**
 * The template expander of sql.c (function dosql, expansion part): a single
 * left-to-right scan over a statement template that tracks the quote it is
 * inside, substitutes $-references from the environment, from files and
 * from standard input with the escaping that quote calls for, and refuses a
 * second statement.
 *
 * The environment is a map from variable names to values, the file system a
 * map from paths to contents (a path absent from it cannot be opened), and
 * standard input a sequence that the first $- reference consumes.
 */
module Expander {
  import opened Wrappers
  import opened SqlText
  import opened Escaper
  import NumericGate

  type Env = map<string, string>
  type Files = map<string, string>

  datatype ExpandError = MultipleCommand

  /** The expanded statement and what is left of standard input. */
  datatype Expanded = Expanded(text: string, stdin: string)

  /** The scanner state: the quote and list-mode flags, and unread standard input. */
  datatype Scan = Scan(mode: Mode, stdin: string)

  const Start := Mode(Unquoted, false, false)

  // ---------------------------------------------------------------------
  // Stripping the end of the template
  // ---------------------------------------------------------------------

  /** The length left once trailing bytes below the space are dropped. */
  function StripControls(t: string, n: nat): (r: nat)
    requires n <= |t|
    ensures r <= n
    ensures forall k :: r <= k < n ==> t[k] < ' '
    ensures r == 0 || t[r - 1] >= ' '
    decreases n
  {
    if 0 < n && t[n - 1] < ' ' then StripControls(t, n - 1) else n
  }

  /** The template with trailing control bytes, then one ';', removed. */
  function Trim(t: string): (r: string)
    ensures |r| <= |t| && r == t[..|r|]
    ensures |r| < |t| ==> t[|r|] < ' ' || t[|r|] == ';'
    ensures forall k :: |r| < k < |t| ==> t[k] < ' '
  {
    var n := StripControls(t, |t|);
    if 0 < n && t[n - 1] == ';' then t[..n - 1] else t[..n]
  }

  /** How sql.c compares a char with ' ' where char is signed: bytes from 0x80 up are negative. */
  predicate SignedBelowSpace(c: char) { c < ' ' || c >= '\U{80}' }

  function StripControlsAsWritten(t: string, n: nat): (r: nat)
    requires n <= |t|
    ensures r <= n
    decreases n
  {
    if 0 < n && SignedBelowSpace(t[n - 1]) then StripControlsAsWritten(t, n - 1) else n
  }

  /** The strip as compiled where char is signed. */
  function TrimAsWritten(t: string): string
  {
    var n := StripControlsAsWritten(t, |t|);
    if 0 < n && t[n - 1] == ';' then t[..n - 1] else t[..n]
  }

  /** Where char is signed, a template ending in a non-ASCII name loses the name's last bytes. */
  lemma TrimAsWrittenDropsHighBytes()
    ensures TrimAsWritten("select * from caf\U{C3}\U{A9}") == "select * from caf"
  {
    var t := "select * from caf\U{C3}\U{A9}";
    assert StripControlsAsWritten(t, 17) == 17;
    assert StripControlsAsWritten(t, 19) == 17;
  }

  /** The intended strip keeps a template that ends in a byte from 0x80 up. */
  lemma TrimKeepsHighBytes(t: string)
    requires 0 < |t| && t[|t| - 1] >= '\U{80}'
    ensures Trim(t) == t
  {
  }

  // ---------------------------------------------------------------------
  // $-references
  // ---------------------------------------------------------------------

  predicate IsPrefixChar(c: char) { c == '#' || c == ',' || c == '@' }
  predicate IsNameChar(c: char) { IsAlnum(c) || c == '_' }

  function PrefixEnd(t: string, k: nat): (r: nat)
    requires k <= |t|
    ensures k <= r <= |t|
    ensures forall j :: k <= j < r ==> IsPrefixChar(t[j])
    ensures r == |t| || !IsPrefixChar(t[r])
    decreases |t| - k
  {
    if k < |t| && IsPrefixChar(t[k]) then PrefixEnd(t, k + 1) else k
  }

  function NameEnd(t: string, k: nat): (r: nat)
    requires k <= |t|
    ensures k <= r <= |t|
    ensures forall j :: k <= j < r ==> IsNameChar(t[j])
    ensures r == |t| || !IsNameChar(t[r])
    decreases |t| - k
  {
    if k < |t| && IsNameChar(t[k]) then NameEnd(t, k + 1) else k
  }

  function BraceEnd(t: string, k: nat): (r: nat)
    requires k <= |t|
    ensures k <= r <= |t|
    ensures forall j :: k <= j < r ==> t[j] != '}'
    ensures r == |t| || t[r] == '}'
    decreases |t| - k
  {
    if k < |t| && t[k] != '}' then BraceEnd(t, k + 1) else k
  }

  /**
   * A parsed $-reference: its prefixes, the variable name (None when no
   * name follows, and the '$' is then literal) and where scanning resumes.
   */
  datatype Ref = Ref(hash: bool, comma: bool, file: bool, name: Option<string>, next: nat)

  function ParseRef(t: string, i: nat): (r: Ref)
    requires i < |t| && t[i] == '$'
    ensures i < r.next <= |t|
    ensures r.name.None? ==> r.next == i + 1
  {
    var k := PrefixEnd(t, i + 1);
    var prefixes := t[i + 1..k];
    var hash, comma, file := '#' in prefixes, ',' in prefixes, '@' in prefixes;
    if k + 1 < |t| && t[k] == '{' && IsAlpha(t[k + 1]) then
      var m := BraceEnd(t, k + 1);
      if m < |t| then Ref(hash, comma, file, Some(t[k + 1..m]), m + 1)
      else Ref(hash, comma, file, None, i + 1)
    else if k < |t| && IsAlpha(t[k]) then
      var m := NameEnd(t, k);
      Ref(hash, comma, file, Some(t[k..m]), m)
    else Ref(hash, comma, file, None, i + 1)
  }

  /** A fresh '...' pair around the text when the reference stands outside any quote. */
  function Wrap(q: Quote, body: string): string
  {
    if q == Unquoted then "'" + body + "'" else body
  }

  /** What a reference with a name expands to, inside quote q. */
  function Substitute(r: Ref, q: Quote, env: Env, files: Files): string
    requires r.name.Some?
  {
    var name := r.name.value;
    var m := Mode(q, r.hash, r.comma);
    if name !in env then []
    else if r.file then
      if env[name] !in files then [] else Wrap(q, EscapeAll(files[env[name]], m, false))
    else if r.hash || r.comma then Wrap(q, EscapeAll(env[name], m, r.comma))
    else if q == Backtick then FieldChars(env[name])
    else if q != Unquoted then EscapeAll(env[name], m, false)
    else if NumericGate.Accepts(env[name]) then env[name]
    else "0"
  }

  // ---------------------------------------------------------------------
  // The scan
  // ---------------------------------------------------------------------

  /** One step of the scan at position i: where it resumes, the new state and the text it adds. */
  function Step(t: string, i: nat, s: Scan, env: Env, files: Files): (r: Result<(nat, Scan, string), ExpandError>)
    requires i < |t|
    ensures r.Ok? ==> i < r.value.0 <= |t|
  {
    var c := t[i];
    var q := s.mode.quote;
    if q != Unquoted && c == Delimiter(q) then
      Ok((i + 1, Scan(s.mode.(quote := Unquoted), s.stdin), [Emitted(q)]))
    else if q == Unquoted && IsQuoteChar(c) then
      Ok((i + 1, Scan(s.mode.(quote := QuoteOf(c)), s.stdin), [Emitted(QuoteOf(c))]))
    else if q != Unquoted && c == '\'' then
      Ok((i + 1, s, "''"))
    else if c == '\\' && i + 1 < |t| then
      Ok((i + 2, s, [c, t[i + 1]]))
    else if c == '$' && i + 1 < |t| && t[i + 1] == '-' then
      Ok((i + 2, Scan(s.mode, []), Wrap(q, EscapeAll(s.stdin, s.mode, false))))
    else if c == '$' && i + 1 < |t| && t[i + 1] == '$' then
      Ok((i + 2, s, "$"))
    else if q == Unquoted && c == ';' then
      Err(MultipleCommand)
    else if c == '$' then
      var r := ParseRef(t, i);
      var s' := Scan(Mode(q, r.hash, r.comma), s.stdin);
      Ok((r.next, s', if r.name.None? then "$" else Substitute(r, q, env, files)))
    else
      Ok((i + 1, s, [c]))
  }

  /** The scan from position i in state s, with out already emitted. */
  function ExpandFrom(t: string, i: nat, s: Scan, out: string, env: Env, files: Files): (r: Result<Expanded, ExpandError>)
    requires i <= |t|
    ensures r.Ok? ==> out <= r.value.text
    decreases |t| - i
  {
    if i == |t| then Ok(Expanded(out, s.stdin))
    else
      match Step(t, i, s, env, files)
      case Err(e) => Err(e)
      case Ok((j, s', piece)) => ExpandFrom(t, j, s', out + piece, env, files)
  }

  /** The expansion of a whole template. */
  function Expansion(template: string, env: Env, files: Files, stdin: string): Result<Expanded, ExpandError>
  {
    ExpandFrom(Trim(template), 0, Scan(Start, stdin), [], env, files)
  }

  // ---------------------------------------------------------------------
  // The loops of sql.c
  // ---------------------------------------------------------------------

  /** Feeds every byte of s to addquoted. */
  method AppendEscaped(out: string, s: string, m: Mode, tab: bool) returns (r: string)
    ensures r == out + EscapeAll(s, m, tab)
  {
    r := out;
    var j := 0;
    while j < |s|
      invariant j <= |s|
      invariant r == out + EscapeAll(s[..j], m, tab)
    {
      assert s[..j + 1][..j] == s[..j];
      assert EscapeAll(s[..j + 1], m, tab) == EscapeAll(s[..j], m, tab) + Escape(s[j], m, tab);
      Associative(out, EscapeAll(s[..j], m, tab), Escape(s[j], m, tab));
      r := r + Escape(s[j], m, tab);
      j := j + 1;
    }
    assert s[..j] == s;
  }

  /** The field-name copy inside backticks: letters, digits and dots only. */
  method AppendFieldChars(out: string, s: string) returns (r: string)
    ensures r == out + FieldChars(s)
  {
    r := out;
    var j := 0;
    while j < |s|
      invariant j <= |s|
      invariant r == out + FieldChars(s[..j])
    {
      assert s[..j + 1][..j] == s[..j];
      if IsAlnum(s[j]) || s[j] == '.' {
        r := r + [s[j]];
      }
      j := j + 1;
    }
    assert s[..j] == s;
  }

  /** The run of '#', ',' and '@' after the '$', and which of them it holds. */
  method ScanPrefixes(t: string, i: nat) returns (k: nat, hash: bool, comma: bool, file: bool)
    requires i < |t|
    ensures k == PrefixEnd(t, i + 1)
    ensures hash == ('#' in t[i + 1..k]) && comma == (',' in t[i + 1..k]) && file == ('@' in t[i + 1..k])
  {
    hash, comma, file := false, false, false;
    k := i + 1;
    while k < |t| && IsPrefixChar(t[k])
      invariant i + 1 <= k <= |t|
      invariant PrefixEnd(t, k) == PrefixEnd(t, i + 1)
      invariant hash == ('#' in t[i + 1..k]) && comma == (',' in t[i + 1..k]) && file == ('@' in t[i + 1..k])
      decreases |t| - k
    {
      assert t[i + 1..k + 1] == t[i + 1..k] + [t[k]];
      if t[k] == '#' {
        hash := true;
      } else if t[k] == ',' {
        comma := true;
      } else {
        file := true;
      }
      k := k + 1;
    }
  }

  /** The position of the first '}' at or after k, or the end. */
  method FindBrace(t: string, k: nat) returns (m: nat)
    requires k <= |t|
    ensures m == BraceEnd(t, k)
  {
    m := k;
    while m < |t| && t[m] != '}'
      invariant k <= m <= |t|
      invariant BraceEnd(t, m) == BraceEnd(t, k)
      decreases |t| - m
    {
      m := m + 1;
    }
  }

  /** The end of the run of letters, digits and '_' from k. */
  method FindNameEnd(t: string, k: nat) returns (m: nat)
    requires k <= |t|
    ensures m == NameEnd(t, k)
  {
    m := k;
    while m < |t| && (IsAlnum(t[m]) || t[m] == '_')
      invariant k <= m <= |t|
      invariant NameEnd(t, m) == NameEnd(t, k)
      decreases |t| - m
    {
      m := m + 1;
    }
  }

  /** The prefix and name scan of a $-reference at position i. */
  method ParseReference(t: string, i: nat) returns (r: Ref)
    requires i < |t| && t[i] == '$'
    ensures r == ParseRef(t, i)
  {
    var k, hash, comma, file := ScanPrefixes(t, i);
    if k + 1 < |t| && t[k] == '{' && IsAlpha(t[k + 1]) {
      var m := FindBrace(t, k + 1);
      if m < |t| {
        r := Ref(hash, comma, file, Some(t[k + 1..m]), m + 1);
      } else {
        r := Ref(hash, comma, file, None, i + 1);
      }
    } else if k < |t| && IsAlpha(t[k]) {
      var m := FindNameEnd(t, k);
      r := Ref(hash, comma, file, Some(t[k..m]), m);
    } else {
      r := Ref(hash, comma, file, None, i + 1);
    }
  }

  /** The text a named reference adds, by source and quote. */
  method AppendSubstitution(out: string, r: Ref, q: Quote, env: Env, files: Files) returns (o: string)
    requires r.name.Some?
    ensures o == out + Substitute(r, q, env, files)
  {
    var name := r.name.value;
    if name !in env {
      return out;
    }
    var v := env[name];
    var m := Mode(q, r.hash, r.comma);
    o := out;
    if r.file {
      if v !in files {
        return out;
      }
      if q == Unquoted {
        o := o + "'";
      }
      o := AppendEscaped(o, files[v], m, false);
      if q == Unquoted {
        o := o + "'";
      }
    } else if r.hash || r.comma {
      if q == Unquoted {
        o := o + "'";
      }
      o := AppendEscaped(o, v, m, r.comma);
      if q == Unquoted {
        o := o + "'";
      }
    } else if q == Backtick {
      o := AppendFieldChars(o, v);
    } else if q != Unquoted {
      o := AppendEscaped(o, v, m, false);
    } else {
      var ok := NumericGate.CheckNumeric(v);
      if ok {
        o := o + v;
      } else {
        o := o + "0";
      }
    }
  }

  /** Where the template ends once trailing control bytes and then one ';' are dropped. */
  method TrimmedLength(template: string) returns (n: nat)
    ensures n <= |template| && template[..n] == Trim(template)
  {
    n := |template|;
    while 0 < n && template[n - 1] < ' '
      invariant n <= |template|
      invariant StripControls(template, n) == StripControls(template, |template|)
      decreases n
    {
      n := n - 1;
    }
    if 0 < n && template[n - 1] == ';' {
      n := n - 1;
    }
  }

  /** One pass of the scan loop of dosql: the text it appends to out, and where and in which state it resumes. */
  method Advance(t: string, i: nat, s: Scan, out: string, env: Env, files: Files)
    returns (r: Result<(nat, Scan, string), ExpandError>)
    requires i < |t|
    ensures r.Err? <==> Step(t, i, s, env, files).Err?
    ensures r.Err? ==> r.error == Step(t, i, s, env, files).error
    ensures r.Ok? ==> r.value.0 == Step(t, i, s, env, files).value.0
    ensures r.Ok? ==> r.value.1 == Step(t, i, s, env, files).value.1
    ensures r.Ok? ==> r.value.2 == out + Step(t, i, s, env, files).value.2
  {
    var c := t[i];
    var quote := s.mode.quote;
    if quote != Unquoted && c == Delimiter(quote) {
      r := Ok((i + 1, Scan(s.mode.(quote := Unquoted), s.stdin), out + [Emitted(quote)]));
    } else if quote == Unquoted && IsQuoteChar(c) {
      r := Ok((i + 1, Scan(s.mode.(quote := QuoteOf(c)), s.stdin), out + [Emitted(QuoteOf(c))]));
    } else if quote != Unquoted && c == '\'' {
      r := Ok((i + 1, s, out + "''"));
    } else if c == '\\' && i + 1 < |t| {
      r := Ok((i + 2, s, out + [c, t[i + 1]]));
    } else if c == '$' && i + 1 < |t| && t[i + 1] == '-' {
      var o := out;
      if quote == Unquoted {
        o := o + "'";
      }
      o := AppendEscaped(o, s.stdin, s.mode, false);
      if quote == Unquoted {
        o := o + "'";
      }
      assert o == out + Wrap(quote, EscapeAll(s.stdin, s.mode, false));
      r := Ok((i + 2, Scan(s.mode, []), o));
    } else if c == '$' && i + 1 < |t| && t[i + 1] == '$' {
      r := Ok((i + 2, s, out + "$"));
    } else if quote == Unquoted && c == ';' {
      r := Err(MultipleCommand);
    } else if c == '$' {
      var ref := ParseReference(t, i);
      var o := out + "$";
      if ref.name.Some? {
        o := AppendSubstitution(out, ref, quote, env, files);
      }
      r := Ok((ref.next, Scan(Mode(quote, ref.hash, ref.comma), s.stdin), o));
    } else {
      r := Ok((i + 1, s, out + [c]));
    }
  }

  /** dosql's expansion: the template in, the statement text or the refusal out. */
  method Expand(template: string, env: Env, files: Files, stdin: string) returns (r: Result<Expanded, ExpandError>)
    ensures r == Expansion(template, env, files, stdin)
  {
    var n := TrimmedLength(template);
    var t := template[..n];
    var s := Scan(Start, stdin);
    var out := [];
    var i := 0;
    while i < |t|
      invariant i <= |t|
      invariant ExpandFrom(t, i, s, out, env, files) == Expansion(template, env, files, stdin)
      decreases |t| - i
    {
      var a := Advance(t, i, s, out, env, files);
      if a.Err? {
        return Err(a.error);
      }
      i, s, out := a.value.0, a.value.1, a.value.2;
    }
    return Ok(Expanded(out, s.stdin));
  }

  // ---------------------------------------------------------------------
  // Properties of the expansion
  // ---------------------------------------------------------------------

  /** A byte that none of the rules before the default copy reacts to. */
  predicate Plain(c: char) { !IsQuoteChar(c) && c != '\\' && c != '$' && c != ';' }

  /** Outside quotes, a run of plain bytes is copied unchanged and leaves the state alone. */
  lemma {:induction false} PlainRunCopied(t: string, i: nat, j: nat, s: Scan, out: string, env: Env, files: Files)
    requires i <= j <= |t|
    requires s.mode.quote == Unquoted
    requires forall k :: i <= k < j ==> Plain(t[k])
    ensures ExpandFrom(t, i, s, out, env, files) == ExpandFrom(t, j, s, out + t[i..j], env, files)
    decreases j - i
  {
    if i == j {
      assert out + t[i..j] == out;
    } else {
      assert Step(t, i, s, env, files) == Ok((i + 1, s, [t[i]]));
      PlainRunCopied(t, i + 1, j, s, out + [t[i]], env, files);
      assert out + [t[i]] + t[i + 1..j] == out + t[i..j];
    }
  }

  /** A template of plain bytes expands to itself, stripped. */
  lemma PlainTemplate(template: string, env: Env, files: Files, stdin: string)
    requires forall k :: 0 <= k < |Trim(template)| ==> Plain(Trim(template)[k])
    ensures Expansion(template, env, files, stdin) == Ok(Expanded(Trim(template), stdin))
  {
    var t := Trim(template);
    PlainRunCopied(t, 0, |t|, Scan(Start, stdin), [], env, files);
    assert [] + t[0..|t|] == t;
  }

  /** A ';' outside quotes refuses the whole template, whatever follows it. */
  lemma SemicolonRefused(t: string, i: nat, s: Scan, out: string, env: Env, files: Files)
    requires i < |t| && t[i] == ';' && s.mode.quote == Unquoted
    ensures ExpandFrom(t, i, s, out, env, files) == Err(MultipleCommand)
  {
  }

  /** A ';' inside a quote is an ordinary byte. */
  lemma QuotedSemicolonCopied(t: string, i: nat, s: Scan, env: Env, files: Files)
    requires i < |t| && t[i] == ';' && s.mode.quote != Unquoted
    ensures Step(t, i, s, env, files) == Ok((i + 1, s, ";"))
  {
  }

  /** Two statements are refused; one statement with its terminator is not. */
  lemma TwoStatements(env: Env, files: Files, stdin: string)
    ensures Expansion("select 1; select 2;\n", env, files, stdin) == Err(MultipleCommand)
    ensures Expansion("select 1;\n", env, files, stdin) == Ok(Expanded("select 1", stdin))
  {
    var two := "select 1; select 2;\n";
    assert StripControls(two, 19) == 19;
    assert StripControls(two, 20) == 19;
    var t := Trim(two);
    assert t == "select 1; select 2";
    PlainRunCopied(t, 0, 8, Scan(Start, stdin), [], env, files);
    SemicolonRefused(t, 8, Scan(Start, stdin), [] + t[0..8], env, files);

    var one := "select 1;\n";
    assert StripControls(one, 9) == 9;
    assert StripControls(one, 10) == 9;
    assert Trim(one) == "select 1";
    PlainTemplate(one, env, files, stdin);
  }

  /** $$ is a literal dollar in every state. */
  lemma DollarDollar(t: string, i: nat, s: Scan, env: Env, files: Files)
    requires i + 1 < |t| && t[i] == '$' && t[i + 1] == '$'
    ensures Step(t, i, s, env, files) == Ok((i + 2, s, "$"))
  {
  }

  /** A '$' that no name follows is copied as it is and keeps the prefixes it carried. */
  lemma LonelyDollar(t: string, i: nat, s: Scan, env: Env, files: Files)
    requires i < |t| && t[i] == '$'
    requires i + 1 == |t| || (t[i + 1] != '$' && t[i + 1] != '-')
    requires ParseRef(t, i).name.None?
    ensures Step(t, i, s, env, files)
         == Ok((i + 1, Scan(Mode(s.mode.quote, ParseRef(t, i).hash, ParseRef(t, i).comma), s.stdin), "$"))
  {
  }

  /** Only a $- reference reads standard input; every other step leaves it as it was. */
  lemma StdinOnlyReadByDash(t: string, i: nat, s: Scan, env: Env, files: Files)
    requires i < |t|
    requires !(t[i] == '$' && i + 1 < |t| && t[i + 1] == '-')
    requires Step(t, i, s, env, files).Ok?
    ensures Step(t, i, s, env, files).value.1.stdin == s.stdin
  {
  }

  /** The first $- takes all of standard input; a later one finds it empty. */
  lemma StdinReadOnce(t: string, i: nat, s: Scan, env: Env, files: Files)
    requires i + 1 < |t| && t[i] == '$' && t[i + 1] == '-'
    ensures Step(t, i, s, env, files)
         == Ok((i + 2, Scan(s.mode, []), Wrap(s.mode.quote, EscapeAll(s.stdin, s.mode, false))))
    ensures Step(t, i, Scan(s.mode, []), env, files)
         == Ok((i + 2, Scan(s.mode, []), Wrap(s.mode.quote, [])))
  {
  }

  /** What the expansion leaves of standard input is all of it or nothing. */
  lemma {:induction false} StdinAllOrNothing(t: string, i: nat, s: Scan, out: string, env: Env, files: Files, stdin: string)
    requires i <= |t|
    requires s.stdin == stdin || s.stdin == []
    requires ExpandFrom(t, i, s, out, env, files).Ok?
    ensures ExpandFrom(t, i, s, out, env, files).value.stdin in {stdin, []}
    decreases |t| - i
  {
    if i < |t| {
      var st := Step(t, i, s, env, files);
      var j, s', piece := st.value.0, st.value.1, st.value.2;
      if !(t[i] == '$' && i + 1 < |t| && t[i + 1] == '-') {
        StdinOnlyReadByDash(t, i, s, env, files);
      }
      StdinAllOrNothing(t, j, s', out + piece, env, files, stdin);
    }
  }

  /** The rest of standard input after a whole expansion. */
  lemma ExpansionStdin(template: string, env: Env, files: Files, stdin: string)
    requires Expansion(template, env, files, stdin).Ok?
    ensures Expansion(template, env, files, stdin).value.stdin in {stdin, []}
  {
    StdinAllOrNothing(Trim(template), 0, Scan(Start, stdin), [], env, files, stdin);
  }

  /** Standard input inside a quote or in a fresh '...' pair decodes back to its retained bytes. */
  lemma StdinDecodes(t: string, i: nat, s: Scan, env: Env, files: Files)
    requires i + 1 < |t| && t[i] == '$' && t[i + 1] == '-'
    requires s.mode.quote != Backtick && !s.mode.ListMode()
    ensures var piece := Step(t, i, s, env, files).value.2;
      if s.mode.quote == Unquoted
      then 2 <= |piece| && piece[0] == '\'' && piece[|piece| - 1] == '\''
           && Unquote(piece[1..|piece| - 1]) == Some(Kept(s.stdin))
      else Unquote(piece) == Some(Kept(s.stdin))
  {
    EscapedValueDecodes(s.stdin, s.mode);
    var body := EscapeAll(s.stdin, s.mode, false);
    if s.mode.quote == Unquoted {
      assert ("'" + body + "'")[1..|body| + 1] == body;
    }
  }

  /**
   * A reference whose variable is not set, or whose $@ file cannot be read,
   * expands to nothing, with or without braces and prefixes; scanning
   * resumes after the reference, in the escaping its prefixes ask for.
   */
  lemma MissingVariableDropped(t: string, i: nat, s: Scan, env: Env, files: Files)
    requires i < |t| && t[i] == '$' && ParseRef(t, i).name.Some?
    requires var r := ParseRef(t, i);
      r.name.value !in env || (r.file && env[r.name.value] !in files)
    ensures var r := ParseRef(t, i);
      Step(t, i, s, env, files) == Ok((r.next, Scan(Mode(s.mode.quote, r.hash, r.comma), s.stdin), []))
  {
    assert i + 1 < |t| && t[i + 1] != '-' && t[i + 1] != '$' by {
      if PrefixEnd(t, i + 1) != i + 1 {
        assert IsPrefixChar(t[i + 1]);
      }
    }
  }

  /** Without prefixes or braces the reference is the longest run of name characters. */
  lemma MissingPlainVariable(t: string, i: nat, s: Scan, env: Env, files: Files)
    requires i + 1 < |t| && t[i] == '$' && IsAlpha(t[i + 1])
    requires t[i + 1..NameEnd(t, i + 1)] !in env
    ensures Step(t, i, s, env, files)
         == Ok((NameEnd(t, i + 1), Scan(Mode(s.mode.quote, false, false), s.stdin), []))
  {
    assert PrefixEnd(t, i + 1) == i + 1;
    assert t[i + 1..i + 1] == [];
    MissingVariableDropped(t, i, s, env, files);
  }

  /**
   * The quoting steps: " opens and closes a context written as '...', while
   * ' and ` open and close their own; a ' inside "..." or `...` is doubled;
   * a backslash and the byte after it are copied together, in any context.
   */
  lemma QuoteSteps(t: string, i: nat, s: Scan, env: Env, files: Files)
    requires i < |t|
    ensures t[i] == '"' && s.mode.quote == Unquoted
         ==> Step(t, i, s, env, files) == Ok((i + 1, Scan(s.mode.(quote := Double), s.stdin), "'"))
    ensures t[i] == '"' && s.mode.quote == Double
         ==> Step(t, i, s, env, files) == Ok((i + 1, Scan(s.mode.(quote := Unquoted), s.stdin), "'"))
    ensures t[i] == '\'' && s.mode.quote == Unquoted
         ==> Step(t, i, s, env, files) == Ok((i + 1, Scan(s.mode.(quote := Single), s.stdin), "'"))
    ensures t[i] == '\'' && s.mode.quote == Single
         ==> Step(t, i, s, env, files) == Ok((i + 1, Scan(s.mode.(quote := Unquoted), s.stdin), "'"))
    ensures t[i] == '`' && s.mode.quote == Unquoted
         ==> Step(t, i, s, env, files) == Ok((i + 1, Scan(s.mode.(quote := Backtick), s.stdin), "`"))
    ensures t[i] == '`' && s.mode.quote == Backtick
         ==> Step(t, i, s, env, files) == Ok((i + 1, Scan(s.mode.(quote := Unquoted), s.stdin), "`"))
    ensures t[i] == '\'' && (s.mode.quote == Double || s.mode.quote == Backtick)
         ==> Step(t, i, s, env, files) == Ok((i + 1, s, "''"))
    ensures t[i] == '\\' && i + 1 < |t|
         ==> Step(t, i, s, env, files) == Ok((i + 2, s, t[i..i + 2]))
  {
    if t[i] == '\\' && i + 1 < |t| {
      assert t[i..i + 2] == [t[i], t[i + 1]];
    }
  }

  /** A plain reference inside '...' or "..." decodes back to the value's retained bytes. */
  lemma QuotedValueDecodes(r: Ref, q: Quote, env: Env, files: Files)
    requires r.name.Some? && r.name.value in env
    requires !r.file && !r.hash && !r.comma
    requires q == Single || q == Double
    ensures Unquote(Substitute(r, q, env, files)) == Some(Kept(env[r.name.value]))
  {
    EscapedValueDecodes(env[r.name.value], Mode(q, false, false));
  }

  /** A plain reference outside quotes yields arithmetic or 0, never anything else. */
  lemma UnquotedValueIsArithmetic(r: Ref, env: Env, files: Files)
    requires r.name.Some? && r.name.value in env
    requires !r.file && !r.hash && !r.comma
    ensures var v := Substitute(r, Unquoted, env, files);
      (v == env[r.name.value] && NumericGate.Accepts(v)) || v == "0"
    ensures forall k :: 0 <= k < |Substitute(r, Unquoted, env, files)| ==>
      NumericGate.IsNumChar(Substitute(r, Unquoted, env, files)[k])
  {
    var v := env[r.name.value];
    if NumericGate.Accepts(v) {
      NumericGate.AcceptedIsArithmetic(v);
    }
  }

  /** A plain reference inside backticks yields a field name. */
  lemma BacktickValueIsFieldName(r: Ref, env: Env, files: Files)
    requires r.name.Some? && r.name.value in env
    requires !r.file && !r.hash && !r.comma
    ensures forall k :: 0 <= k < |Substitute(r, Backtick, env, files)| ==>
      IsFieldChar(Substitute(r, Backtick, env, files)[k])
  {
  }

  /** A file's contents outside quotes become a '...' literal that decodes back to them. */
  lemma FileContentDecodes(r: Ref, env: Env, files: Files)
    requires r.name.Some? && r.name.value in env && env[r.name.value] in files
    requires r.file && !r.hash && !r.comma
    ensures var piece := Substitute(r, Unquoted, env, files);
      2 <= |piece| && piece[0] == '\'' && piece[|piece| - 1] == '\''
      && Unquote(piece[1..|piece| - 1]) == Some(Kept(files[env[r.name.value]]))
  {
    var content := files[env[r.name.value]];
    EscapedValueDecodes(content, Mode(Unquoted, false, false));
    var body := EscapeAll(content, Mode(Unquoted, false, false), false);
    assert ("'" + body + "'")[1..|body| + 1] == body;
  }

  /** A list reference splits its value at the separators, one escaped item per element. */
  lemma ListValueSplit(r: Ref, q: Quote, env: Env, files: Files)
    requires r.name.Some? && r.name.value in env
    requires !r.file && (r.hash || r.comma)
    ensures Substitute(r, q, env, files)
         == Wrap(q, ListBody(Split(env[r.name.value], r.comma), Mode(q, r.hash, r.comma)))
  {
    ListEscape(env[r.name.value], Mode(q, r.hash, r.comma), r.comma);
  }

  /** Bytes the escaper copies unchanged. */
  predicate PlainValue(s: string)
  {
    forall k :: 0 <= k < |s| ==> s[k] >= ' ' && s[k] != '\'' && s[k] != '\\' && s[k] != ','
  }

  /**
   * A value such as O'Brien: outside quotes it is not arithmetic and becomes
   * 0; inside quotes its quote is doubled and nothing else changes.
   */
  lemma QuoteInValue(files: Files, o: string, b: string)
    requires PlainValue(o) && PlainValue(b)
    ensures var r := Ref(false, false, false, Some("name"), 0);
      var env := map["name" := o + "'" + b];
      Substitute(r, Unquoted, env, files) == "0" && Substitute(r, Single, env, files) == o + "''" + b
  {
    var v := o + "'" + b;
    NumericGate.ForeignCharRejected(v, |o|);
    var m := Mode(Single, false, false);
    EscapeAllAppend(o + "'", b, m, false);
    EscapeAllAppend(o, "'", m, false);
    EscapeAllPlain(o, m, false);
    EscapeAllPlain(b, m, false);
    EscapeAllOne('\'', m, false);
    assert Escape('\'', m, false) == "''";
  }
}
