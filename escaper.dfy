/**
 * The quoting context of the template expander and its byte escaper, the
 * closure addquoted of sql.c. The escaper shares the expander's output and
 * its quote/hash/comma state; here that state is passed in as a Mode.
 */
module Escaper {
  import opened Wrappers
  import opened SqlText

  /** Which quote the expander is inside: none, ', " or a backtick. */
  datatype Quote = Unquoted | Single | Double | Backtick

  predicate IsQuoteChar(c: char) { c == '\'' || c == '"' || c == '`' }

  function QuoteOf(c: char): (q: Quote)
    requires IsQuoteChar(c)
    ensures q != Unquoted && Delimiter(q) == c
  {
    if c == '\'' then Single else if c == '"' then Double else Backtick
  }

  /** The template character that opens and closes the context. */
  function Delimiter(q: Quote): char
    requires q != Unquoted
  {
    match q
    case Single => '\''
    case Double => '"'
    case Backtick => '`'
  }

  /** The character written for a delimiter: a double quote becomes a single quote. */
  function Emitted(q: Quote): (c: char)
    requires q != Unquoted
    ensures c == '\'' || c == '`'
  {
    if q == Double then '\'' else Delimiter(q)
  }

  /** The quote put around list elements: a backtick inside backticks, ' elsewhere. */
  function ListQuote(q: Quote): char
  {
    if q == Backtick then '`' else '\''
  }

  /** The expander state the escaper reads: the quote and the list-mode prefixes. */
  datatype Mode = Mode(quote: Quote, hash: bool, comma: bool)
  {
    predicate ListMode() { hash || comma }
  }

  /** A list separator: a comma always, a tab when the ',' prefix asks for it. */
  predicate IsSeparator(c: char, tab: bool) { (tab && c == '\t') || c == ',' }

  /** The text addquoted adds for one byte c. */
  function Escape(c: char, m: Mode, tab: bool): (r: string)
    ensures |r| <= 3
    ensures r == [] <==>
      && !IsSeparator(c, tab)
      && c < ' '
      && (m.quote == Backtick || (c != '\n' && c != '\r' && c != '\t' && c != '\U{C}'))
  {
    if IsSeparator(c, tab) then
      if m.ListMode() then [ListQuote(m.quote), ',', ListQuote(m.quote)] else [',']
    else if m.quote == Backtick then (if c >= ' ' then [c] else [])
    else if c == '\'' then "''"
    else if c == '\\' then "\\\\"
    else if c == '\n' then "\\n"
    else if c == '\r' then "\\r"
    else if c == '\t' then "\\t"
    else if c >= ' ' || c == '\U{C}' then [c]
    else []
  }

  /** addquoted applied to every byte of s, in order. */
  function EscapeAll(s: string, m: Mode, tab: bool): (r: string)
    ensures |r| <= 3 * |s|
    decreases |s|
  {
    if s == [] then [] else EscapeAll(s[..|s| - 1], m, tab) + Escape(s[|s| - 1], m, tab)
  }

  lemma {:induction false} EscapeAllAppend(a: string, b: string, m: Mode, tab: bool)
    ensures EscapeAll(a + b, m, tab) == EscapeAll(a, m, tab) + EscapeAll(b, m, tab)
    decreases |b|
  {
    if b == [] {
      assert a + b == a;
    } else {
      var b', c := b[..|b| - 1], b[|b| - 1];
      var ab := a + b;
      assert ab[..|ab| - 1] == a + b' && ab[|ab| - 1] == c;
      assert EscapeAll(ab, m, tab) == EscapeAll(a + b', m, tab) + Escape(c, m, tab);
      assert EscapeAll(b, m, tab) == EscapeAll(b', m, tab) + Escape(c, m, tab);
      EscapeAllAppend(a, b', m, tab);
      Associative(EscapeAll(a, m, tab), EscapeAll(b', m, tab), Escape(c, m, tab));
    }
  }

  lemma EscapeAllOne(c: char, m: Mode, tab: bool)
    ensures EscapeAll([c], m, tab) == Escape(c, m, tab)
  {
    assert [c][..0] == [];
  }

  /** Printable bytes other than quote, backslash and comma pass through unchanged. */
  lemma {:induction false} EscapeAllPlain(s: string, m: Mode, tab: bool)
    requires forall k :: 0 <= k < |s| ==> s[k] >= ' ' && s[k] != '\'' && s[k] != '\\' && s[k] != ','
    ensures EscapeAll(s, m, tab) == s
    decreases |s|
  {
    if s != [] {
      EscapeAllPlain(s[..|s| - 1], m, tab);
      assert s[..|s| - 1] + [s[|s| - 1]] == s;
    }
  }

  /** The bytes the escaper keeps outside backticks: printable ones, LF, CR, TAB and FF. */
  predicate Retained(c: char) { c >= ' ' || c == '\n' || c == '\r' || c == '\t' || c == '\U{C}' }

  function Kept(s: string): (r: string)
    ensures forall k :: 0 <= k < |r| ==> Retained(r[k])
    decreases |s|
  {
    if s == [] then []
    else Kept(s[..|s| - 1]) + (if Retained(s[|s| - 1]) then [s[|s| - 1]] else [])
  }

  lemma EscapeDecodes(c: char, m: Mode)
    requires m.quote != Backtick && !m.ListMode()
    ensures Unquote(Escape(c, m, false)) == Some(if Retained(c) then [c] else [])
  {
    var e := Escape(c, m, false);
    if c == '\'' || c == '\\' || c == '\n' || c == '\r' || c == '\t' {
      assert e[2..] == [] && Unquote([]) == Some([]);
      var d := if c == '\'' then "'" else Unbackslash(e[1]);
      assert d == [c];
      assert Unquote(e) == Prepend(d, Some([]));
      assert d + [] == [c];
    } else if Retained(c) {
      assert e == [c];
      assert e[1..] == [];
      assert Unquote(e) == Prepend([c], Unquote([]));
      assert [c] + [] == [c];
    } else {
      assert e == [];
    }
  }

  /**
   * Outside backticks and list mode, an escaped value placed between two
   * quotes cannot close the literal, and the server reads back exactly the
   * bytes the escaper retains.
   */
  lemma {:induction false} EscapedValueDecodes(s: string, m: Mode)
    requires m.quote != Backtick && !m.ListMode()
    ensures Unquote(EscapeAll(s, m, false)) == Some(Kept(s))
    decreases |s|
  {
    if s == [] {
    } else {
      var init, c := s[..|s| - 1], s[|s| - 1];
      EscapedValueDecodes(init, m);
      EscapeDecodes(c, m);
      UnquoteAppend(EscapeAll(init, m, false), Escape(c, m, false));
    }
  }

  /** Inside backticks only bytes from the space up are kept. */
  lemma {:induction false} BacktickDropsControls(s: string, m: Mode)
    requires m.quote == Backtick && !m.ListMode()
    ensures forall k :: 0 <= k < |EscapeAll(s, m, false)| ==> EscapeAll(s, m, false)[k] >= ' '
    decreases |s|
  {
    if s != [] {
      BacktickDropsControls(s[..|s| - 1], m);
    }
  }

  /**
   * The escaper does not protect the backtick itself: a value inside a
   * backtick context (list, file or stdin substitution) can close the
   * identifier quote.
   */
  lemma BacktickPassesBacktick(m: Mode, tab: bool)
    requires m.quote == Backtick
    ensures Escape('`', m, tab) == "`"
  {
  }

  // ---------------------------------------------------------------------
  // List mode ($#NAME, $,NAME)
  // ---------------------------------------------------------------------

  /** The value cut at its separators; there is always at least one element. */
  function Split(s: string, tab: bool): (r: seq<string>)
    ensures 1 <= |r|
    decreases |s|
  {
    if s == [] then [[]]
    else
      var r := Split(s[..|s| - 1], tab);
      var c := s[|s| - 1];
      if IsSeparator(c, tab) then r + [[]] else r[..|r| - 1] + [r[|r| - 1] + [c]]
  }

  function CountSeparators(s: string, tab: bool): nat
    decreases |s|
  {
    if s == [] then 0
    else CountSeparators(s[..|s| - 1], tab) + (if IsSeparator(s[|s| - 1], tab) then 1 else 0)
  }

  /** One element more than there are separators. */
  lemma {:induction false} SplitCount(s: string, tab: bool)
    ensures |Split(s, tab)| == CountSeparators(s, tab) + 1
    decreases |s|
  {
    if s != [] {
      SplitCount(s[..|s| - 1], tab);
    }
  }

  /** No element holds a separator. */
  lemma {:induction false} SplitElementsPlain(s: string, tab: bool)
    ensures forall j, k :: 0 <= j < |Split(s, tab)| && 0 <= k < |Split(s, tab)[j]| ==>
      !IsSeparator(Split(s, tab)[j][k], tab)
    decreases |s|
  {
    if s != [] {
      SplitElementsPlain(s[..|s| - 1], tab);
    }
  }

  /** The list body: every element escaped on its own, joined by quote-comma-quote. */
  function ListBody(items: seq<string>, m: Mode): string
    requires 1 <= |items|
    decreases |items|
  {
    var plain := Mode(m.quote, false, false);
    if |items| == 1 then EscapeAll(items[0], plain, false)
    else
      ListBody(items[..|items| - 1], m) + [ListQuote(m.quote), ',', ListQuote(m.quote)]
        + EscapeAll(items[|items| - 1], plain, false)
  }

  lemma EscapeNonSeparator(c: char, m: Mode, tab: bool)
    requires !IsSeparator(c, tab)
    ensures Escape(c, m, tab) == Escape(c, Mode(m.quote, false, false), false)
  {
  }

  /** A new element after the last one. */
  lemma ListBodySnoc(items: seq<string>, x: string, m: Mode)
    requires 1 <= |items|
    ensures ListBody(items + [x], m)
      == ListBody(items, m) + [ListQuote(m.quote), ',', ListQuote(m.quote)] + EscapeAll(x, Mode(m.quote, false, false), false)
  {
    assert (items + [x])[..|items|] == items;
  }

  /** One more byte on the last element. */
  lemma ListBodyExtend(items: seq<string>, c: char, m: Mode)
    requires 1 <= |items|
    ensures var plain := Mode(m.quote, false, false);
      ListBody(items[..|items| - 1] + [items[|items| - 1] + [c]], m) == ListBody(items, m) + Escape(c, plain, false)
  {
    var plain := Mode(m.quote, false, false);
    var sep := [ListQuote(m.quote), ',', ListQuote(m.quote)];
    var last := items[|items| - 1];
    var items' := items[..|items| - 1] + [last + [c]];
    assert (last + [c])[..|last|] == last;
    assert EscapeAll(last + [c], plain, false) == EscapeAll(last, plain, false) + Escape(c, plain, false);
    if |items| == 1 {
      assert items' == [last + [c]];
    } else {
      var front := items[..|items| - 1];
      assert items'[..|items'| - 1] == front;
      assert items[..|items| - 1] == front;
      assert ListBody(items', m) == ListBody(front, m) + sep + EscapeAll(last + [c], plain, false);
      assert ListBody(items, m) == ListBody(front, m) + sep + EscapeAll(last, plain, false);
      Associative(ListBody(front, m) + sep, EscapeAll(last, plain, false), Escape(c, plain, false));
    }
  }

  /**
   * In list mode every separator of the value becomes quote-comma-quote and
   * every element is escaped as a value of its own.
   */
  lemma {:induction false} ListEscape(s: string, m: Mode, tab: bool)
    requires m.ListMode()
    ensures EscapeAll(s, m, tab) == ListBody(Split(s, tab), m)
    decreases |s|
  {
    if s != [] {
      var init, c := s[..|s| - 1], s[|s| - 1];
      var r := Split(init, tab);
      ListEscape(init, m, tab);
      assert EscapeAll(s, m, tab) == EscapeAll(init, m, tab) + Escape(c, m, tab);
      if IsSeparator(c, tab) {
        assert Split(s, tab) == r + [[]];
        ListBodySnoc(r, [], m);
      } else {
        assert Split(s, tab) == r[..|r| - 1] + [r[|r| - 1] + [c]];
        EscapeNonSeparator(c, m, tab);
        ListBodyExtend(r, c, m);
      }
    }
  }

  // ---------------------------------------------------------------------
  // Plain variables inside backticks
  // ---------------------------------------------------------------------

  predicate IsFieldChar(c: char) { IsAlnum(c) || c == '.' }

  /** The letters, digits and dots of a value: all that a backtick context lets through. */
  function FieldChars(s: string): (r: string)
    ensures forall k :: 0 <= k < |r| ==> IsFieldChar(r[k])
    ensures |r| <= |s|
    decreases |s|
  {
    if s == [] then []
    else FieldChars(s[..|s| - 1]) + (if IsFieldChar(s[|s| - 1]) then [s[|s| - 1]] else [])
  }
}
