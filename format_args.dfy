/**
 * What the formatters of sqllib.c read besides the format: the variadic
 * arguments, as a sequence of values tagged with the C type they were passed
 * as, and the C library calls the model treats as uninterpreted (gmtime,
 * localtime, timegm, mktime and vsnprintf for the standard conversions).
 */
module FormatArgs {
  import opened Wrappers
  import opened SqlText

  /** One argument of a va_list. */
  datatype Arg =
    | IntArg(n: int)                // int, and char or short after promotion
    | LongArg(n: int)
    | LongLongArg(n: int)
    | DoubleArg(x: real)
    | LongDoubleArg(x: real)
    | StrArg(s: Option<string>)     // char *; None is NULL
    | PtrArg(p: nat)
    | TimeArg(n: int)               // time_t

  /** The C type a va_arg call asks for. */
  datatype Kind = IntKind | LongKind | LongLongKind | DoubleKind | LongDoubleKind | StrKind | PtrKind | TimeKind

  function KindOf(a: Arg): Kind
  {
    match a
    case IntArg(_) => IntKind
    case LongArg(_) => LongKind
    case LongLongArg(_) => LongLongKind
    case DoubleArg(_) => DoubleKind
    case LongDoubleArg(_) => LongDoubleKind
    case StrArg(_) => StrKind
    case PtrArg(_) => PtrKind
    case TimeArg(_) => TimeKind
  }

  /**
   * va_arg(ap, k) is defined on a: the types agree, an int holds 32 bits, a
   * long, a long long and a time_t hold 64 bits, and a string is a C string.
   */
  predicate Fits(a: Arg, k: Kind)
  {
    && KindOf(a) == k
    && (a.IntArg? ==> -0x8000_0000 <= a.n < 0x8000_0000)
    && (a.LongArg? || a.LongLongArg? || a.TimeArg? ==> -0x8000_0000_0000_0000 <= a.n < 0x8000_0000_0000_0000)
    && (a.StrArg? && a.s.Some? ==> forall j :: 0 <= j < |a.s.value| ==> a.s.value[j] != '\0')
  }

  /** The arguments from position k on match the kinds, in order. */
  predicate AllFit(args: seq<Arg>, k: nat, kinds: seq<Kind>)
  {
    k + |kinds| <= |args| && forall j :: 0 <= j < |kinds| ==> Fits(args[k + j], kinds[j])
  }

  /** struct tm: years since 1900, months from 0. */
  datatype Tm = Tm(year: int, mon: int, mday: int, hour: int, min: int, sec: int)

  /** The C library functions the formatters and the date parser call. */
  datatype Host = Host(
    gmtime: int -> Tm,
    localtime: int -> Tm,
    timegm: Tm -> int,
    mktime: Tm -> int,
    vsnprintf: (string, seq<Arg>) -> string)

  /** sprintf("%04u-%02u-%02u %02u:%02u:%02u") of a broken-down time. */
  function DateTime(t: Tm): string
  {
    PadDecimal(U32(t.year + 1900), 4) + "-" + PadDecimal(U32(t.mon + 1), 2) + "-" + PadDecimal(U32(t.mday), 2)
    + " " + PadDecimal(U32(t.hour), 2) + ":" + PadDecimal(U32(t.min), 2) + ":" + PadDecimal(U32(t.sec), 2)
  }

  /** The fields gmtime and localtime produce for years 0 to 9999. */
  predicate InRange(t: Tm)
  {
    -1900 <= t.year <= 8099 && 0 <= t.mon <= 11 && 1 <= t.mday <= 31
    && 0 <= t.hour <= 23 && 0 <= t.min <= 59 && 0 <= t.sec <= 60
  }

  /** A two-digit field of the datetime. */
  lemma TwoDigits(n: int)
    requires 0 <= n < 100
    ensures |PadDecimal(U32(n), 2)| == 2
  {
    assert U32(n) == n;
    assert Pow10(2) == 100;
    PadDecimalExact(n, 2);
  }

  /** The four-digit year of the datetime. */
  lemma FourDigits(n: int)
    requires 0 <= n < 10000
    ensures |PadDecimal(U32(n), 4)| == 4
  {
    assert U32(n) == n;
    assert Pow10(4) == 10000;
    PadDecimalExact(n, 4);
  }

  /** For in-range fields the datetime is 19 characters. */
  lemma DateTimeShape(t: Tm)
    requires InRange(t)
    ensures |DateTime(t)| == 19
  {
    FourDigits(t.year + 1900);
    TwoDigits(t.mon + 1);
    TwoDigits(t.mday);
    TwoDigits(t.hour);
    TwoDigits(t.min);
    TwoDigits(t.sec);
  }
}
