/**
 * The check sql.c applies to a variable substituted outside any quote: the
 * value is copied unquoted only if a left-to-right scan for a simple
 * arithmetic expression consumes all of it and its parentheses balance;
 * otherwise a single 0 is substituted.
 */
module NumericGate {
  import opened SqlText

  /** The characters such an unquoted value may contain. */
  predicate IsNumChar(c: char) { IsDigit(c) || c in ".eE+-*/() " }

  function SkipDigits(e: string, q: nat): (r: nat)
    requires q <= |e|
    ensures q <= r <= |e|
    ensures forall k :: q <= k < r ==> IsDigit(e[k])
    ensures r == |e| || !IsDigit(e[r])
    decreases |e| - q
  {
    if q < |e| && IsDigit(e[q]) then SkipDigits(e, q + 1) else q
  }

  function SkipSpaces(e: string, q: nat): (r: nat)
    requires q <= |e|
    ensures q <= r <= |e|
    ensures forall k :: q <= k < r ==> e[k] == ' '
    ensures r == |e| || e[r] != ' '
    decreases |e| - q
  {
    if q < |e| && e[q] == ' ' then SkipSpaces(e, q + 1) else q
  }

  /** Closing parentheses, each lowering the depth by one. */
  function SkipClosers(e: string, q: nat, l: int): (r: (nat, int))
    requires q <= |e|
    ensures q <= r.0 <= |e|
    ensures r.1 == l - (r.0 - q)
    ensures forall k :: q <= k < r.0 ==> e[k] == ')'
    decreases |e| - q
  {
    if q < |e| && e[q] == ')' then SkipClosers(e, q + 1, l - 1) else (q, l)
  }

  /** A fraction after the integer digits: '.' digits, then optionally e/E, a sign and digits. */
  function Fraction(e: string, q: nat): (r: nat)
    requires q <= |e|
    ensures q <= r <= |e|
    ensures q < |e| && e[q] == '.' ==> q < r
    ensures forall k :: q <= k < r ==> IsNumChar(e[k])
  {
    if q < |e| && e[q] == '.' then
      var a := SkipDigits(e, q + 1);
      if a < |e| && (e[a] == 'e' || e[a] == 'E') then
        var b := if a + 1 < |e| && (e[a + 1] == '+' || e[a + 1] == '-') then a + 2 else a + 1;
        SkipDigits(e, b)
      else a
    else q
  }

  /** Where one iteration of the scan leaves the position and the depth, and whether it broke off. */
  datatype Round = Round(q: nat, depth: int, stopped: bool)

  function Once(e: string, q: nat, l: int): (p: Round)
    requires q < |e|
    ensures q <= p.q <= |e|
    ensures !p.stopped ==> q < p.q
    ensures p.stopped ==> p.q < |e|
    ensures forall k :: q <= k < p.q ==> IsNumChar(e[k])
  {
    var signed := q + 1 < |e| && (e[q] == '+' || e[q] == '-' || e[q] == '(');
    var q1 := if signed then q + 1 else q;
    var l1 := if signed && e[q] == '(' then l + 1 else l;
    if !IsDigit(e[q1]) && e[q1] != '.' then Round(q1, l1, true)
    else
      var q2 := Fraction(e, SkipDigits(e, q1));
      var closed := SkipClosers(e, q2, l1);
      var q4 := SkipSpaces(e, closed.0);
      var q5 := if q4 + 1 < |e| && (e[q4] == '*' || e[q4] == '/' || e[q4] == '+' || e[q4] == '-') then q4 + 1 else q4;
      Round(SkipSpaces(e, q5), closed.1, false)
  }

  /** The whole scan from position q with depth l: where it ends and the depth there. */
  function Scan(e: string, q: nat, l: int): (r: (nat, int))
    requires q <= |e|
    ensures q <= r.0 <= |e|
    ensures forall k :: q <= k < r.0 ==> IsNumChar(e[k])
    decreases |e| - q
  {
    if q == |e| then (q, l)
    else
      var p := Once(e, q, l);
      if p.stopped then (p.q, p.depth) else Scan(e, p.q, p.depth)
  }

  /** The value is copied unquoted: the scan consumed it all and the parentheses balance. */
  predicate Accepts(e: string)
  {
    Scan(e, 0, 0) == (|e|, 0)
  }

  /** An accepted value holds only digits, '.', e, E, the four operators, parentheses and blanks. */
  lemma AcceptedIsArithmetic(e: string)
    requires Accepts(e)
    ensures forall k :: 0 <= k < |e| ==> IsNumChar(e[k])
  {
  }

  /** A value with any other character falls back to 0. */
  lemma ForeignCharRejected(e: string, k: nat)
    requires k < |e| && !IsNumChar(e[k])
    ensures !Accepts(e)
  {
    if Accepts(e) {
      AcceptedIsArithmetic(e);
    }
  }

  /** 3+4 is copied unquoted. */
  lemma ThreePlusFour()
    ensures Accepts("3+4")
  {
    var e := "3+4";
    assert SkipDigits(e, 1) == 1;
    assert Once(e, 0, 0) == Round(2, 0, false);
    assert SkipDigits(e, 3) == 3;
    assert Once(e, 2, 0) == Round(3, 0, false);
    assert Scan(e, 2, 0) == (3, 0);
  }
  /** (1+2)*3 is copied unquoted. */
  lemma Grouped()
    ensures Accepts("(1+2)*3")
  {
    var e := "(1+2)*3";
    assert SkipDigits(e, 2) == 2;
    assert Fraction(e, 2) == 2;
    assert SkipClosers(e, 2, 1) == (2, 1);
    assert Once(e, 0, 0) == Round(3, 1, false);
    assert SkipDigits(e, 4) == 4;
    assert SkipClosers(e, 4, 1) == (5, 0) by { assert SkipClosers(e, 5, 0) == (5, 0); }
    assert Once(e, 3, 1) == Round(6, 0, false);
    assert SkipDigits(e, 7) == 7;
    assert Once(e, 6, 0) == Round(7, 0, false);
    assert Scan(e, 6, 0) == (7, 0);
    assert Scan(e, 3, 1) == (7, 0);
  }
  /** An exponent is only recognised after a fraction: 1e5 becomes 0. */
  lemma ExponentNeedsFraction()
    ensures !Accepts("1e5")
  {
    var e := "1e5";
    assert SkipDigits(e, 1) == 1;
    assert Once(e, 0, 0) == Round(1, 0, false);
    assert Once(e, 1, 0) == Round(1, 0, true);
  }

  /** Letters and a statement separator make the value fall back to 0; an empty value is copied as is. */
  lemma OtherExamples()
    ensures !Accepts("abc") && !Accepts("1;2") && Accepts("")
  {
    ForeignCharRejected("abc", 0);
    ForeignCharRejected("1;2", 1);
  }

  method DigitsEnd(e: string, q0: nat) returns (q: nat)
    requires q0 <= |e|
    ensures q == SkipDigits(e, q0)
  {
    q := q0;
    while q < |e| && IsDigit(e[q])
      invariant q0 <= q <= |e|
      invariant SkipDigits(e, q) == SkipDigits(e, q0)
      decreases |e| - q
    {
      q := q + 1;
    }
  }

  method SpacesEnd(e: string, q0: nat) returns (q: nat)
    requires q0 <= |e|
    ensures q == SkipSpaces(e, q0)
  {
    q := q0;
    while q < |e| && e[q] == ' '
      invariant q0 <= q <= |e|
      invariant SkipSpaces(e, q) == SkipSpaces(e, q0)
      decreases |e| - q
    {
      q := q + 1;
    }
  }

  method ClosersEnd(e: string, q0: nat, l0: int) returns (q: nat, l: int)
    requires q0 <= |e|
    ensures (q, l) == SkipClosers(e, q0, l0)
  {
    q, l := q0, l0;
    while q < |e| && e[q] == ')'
      invariant q0 <= q <= |e|
      invariant SkipClosers(e, q, l) == SkipClosers(e, q0, l0)
      decreases |e| - q
    {
      l := l - 1;
      q := q + 1;
    }
  }

  method FractionEnd(e: string, q0: nat) returns (q: nat)
    requires q0 <= |e|
    ensures q == Fraction(e, q0)
  {
    q := q0;
    if q < |e| && e[q] == '.' {
      q := DigitsEnd(e, q + 1);
      if q < |e| && (e[q] == 'e' || e[q] == 'E') {
        q := q + 1;
        if q < |e| && (e[q] == '+' || e[q] == '-') {
          q := q + 1;
        }
        q := DigitsEnd(e, q);
      }
    }
  }

  /** One iteration of the scan loop of sql.c. */
  method ScanOnce(e: string, q0: nat, l0: int) returns (p: Round)
    requires q0 < |e|
    ensures p == Once(e, q0, l0)
  {
    var q, l := q0, l0;
    if q + 1 < |e| && (e[q] == '+' || e[q] == '-' || e[q] == '(') {
      if e[q] == '(' {
        l := l + 1;
      }
      q := q + 1;
    }
    if !IsDigit(e[q]) && e[q] != '.' {
      return Round(q, l, true);
    }
    q := DigitsEnd(e, q);
    q := FractionEnd(e, q);
    q, l := ClosersEnd(e, q, l);
    q := SpacesEnd(e, q);
    if q + 1 < |e| && (e[q] == '*' || e[q] == '/' || e[q] == '+' || e[q] == '-') {
      q := q + 1;
    }
    q := SpacesEnd(e, q);
    p := Round(q, l, false);
  }

  /** The scan of sql.c, as a loop that advances a position and a parenthesis counter. */
  method CheckNumeric(e: string) returns (ok: bool)
    ensures ok == Accepts(e)
  {
    var q: nat, l := 0, 0;
    while q < |e|
      invariant q <= |e|
      invariant Scan(e, q, l) == Scan(e, 0, 0)
      decreases |e| - q
    {
      var p := ScanOnce(e, q, l);
      if p.stopped {
        return false;
      }
      q, l := p.q, p.depth;
    }
    ok := l == 0;
  }
}
