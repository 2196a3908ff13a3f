/**
 * sql_colnum of sqllib.c: the index of the first field of a result whose
 * name equals a given name ignoring ASCII case, or -1.
 */
module ColumnLookup {
  import opened Wrappers
  import opened SqlText

  /** The part of a query result the lookup reads: its field names, a NULL name as None. */
  datatype SqlRes = SqlRes(fields: Option<seq<Option<string>>>)

  /** strcasecmp(a, b) == 0 in the C locale: compared byte by byte after tolower, up to the first end. */
  predicate CaseEqual(a: string, b: string)
    decreases |a|
  {
    if a == [] || b == [] then a == [] && b == []
    else ToLower(a[0]) == ToLower(b[0]) && CaseEqual(a[1..], b[1..])
  }

  /** Equal ignoring case means the same length and the same bytes after tolower. */
  lemma {:induction false} CaseEqualMeans(a: string, b: string)
    ensures CaseEqual(a, b) <==> |a| == |b| && forall k :: 0 <= k < |a| ==> ToLower(a[k]) == ToLower(b[k])
    decreases |a|
  {
    if a != [] && b != [] {
      CaseEqualMeans(a[1..], b[1..]);
      if |a| == |b| && forall k :: 0 <= k < |a| - 1 ==> ToLower(a[1..][k]) == ToLower(b[1..][k]) {
        assert forall k :: 1 <= k < |a| ==> ToLower(a[k]) == ToLower(b[k]) by {
          forall k | 1 <= k < |a| ensures ToLower(a[k]) == ToLower(b[k]) {
            assert a[1..][k - 1] == a[k] && b[1..][k - 1] == b[k];
          }
        }
      }
    }
  }

  /** Matching ignores the case of letters only. */
  lemma CaseExamples()
    ensures CaseEqual("Id", "iD") && !CaseEqual("id", "ids") && !CaseEqual("a_b", "a-b")
  {
    CaseEqualMeans("Id", "iD");
    CaseEqualMeans("a_b", "a-b");
    assert ToLower("a_b"[1]) != ToLower("a-b"[1]);
  }

  /** The name compared for field n: a NULL name reads as the empty string. */
  function NameOf(name: Option<string>): string
  {
    if name.None? then [] else name.value
  }

  predicate Matches(fields: seq<Option<string>>, n: nat, name: string)
    requires n < |fields|
  {
    CaseEqual(NameOf(fields[n]), name)
  }

  /** The first matching field at n or after it, or -1. */
  function FirstFrom(fields: seq<Option<string>>, n: nat, name: string): (r: int)
    requires n <= |fields|
    ensures r == -1 || (n <= r < |fields| && Matches(fields, r, name))
    ensures r == -1 ==> forall k :: n <= k < |fields| ==> !Matches(fields, k, name)
    ensures r != -1 ==> forall k :: n <= k < r ==> !Matches(fields, k, name)
    decreases |fields| - n
  {
    if n == |fields| then -1
    else if Matches(fields, n, name) then n
    else FirstFrom(fields, n + 1, name)
  }

  /**
   * sql_colnum(res, name): the first field whose name matches; -1 means there
   * is no result, no field list, or no matching name.
   */
  function Column(res: Option<SqlRes>, name: string): (r: int)
    ensures -1 <= r
    ensures r >= 0 <==>
      (res.Some? && res.value.fields.Some?
       && exists k :: 0 <= k < |res.value.fields.value| && Matches(res.value.fields.value, k, name))
    ensures r >= 0 ==>
      (r < |res.value.fields.value| && Matches(res.value.fields.value, r, name)
       && forall k :: 0 <= k < r ==> !Matches(res.value.fields.value, k, name))
  {
    if res.None? || res.value.fields.None? then -1
    else FirstFrom(res.value.fields.value, 0, name)
  }

  /** A field whose name is NULL is found by the empty name and by no other. */
  lemma NullNameMatchesEmpty(name: string)
    ensures Column(Some(SqlRes(Some([None]))), name) == (if name == [] then 0 else -1)
  {
    var fields: seq<Option<string>> := [None];
    assert FirstFrom(fields, 1, name) == -1;
  }

  /** The for loop of sql_colnum: stop at the first match or the end. */
  method ColNum(res: Option<SqlRes>, name: string) returns (r: int)
    ensures r == Column(res, name)
  {
    if res.None? || res.value.fields.None? {
      return -1;
    }
    var fields := res.value.fields.value;
    var n := 0;
    while n < |fields| && !CaseEqual(NameOf(fields[n]), name)
      invariant n <= |fields|
      invariant FirstFrom(fields, n, name) == FirstFrom(fields, 0, name)
      decreases |fields| - n
    {
      n := n + 1;
    }
    if n < |fields| {
      return n;
    }
    return -1;
  }
}
