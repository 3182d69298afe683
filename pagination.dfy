/**
 * Resolution of the `limit`, `page` and `offset` query strings of the two list endpoints
 * (GET /api/ingredients and GET /api/items share the same code).
 *
 * Go's `int` is taken to be 64 bits wide. `strconv.Atoi` is modelled with its error discarded,
 * as the handlers do. A decimal integer out of the 64-bit range yields the nearest bound, which
 * is what `ParseInt` returns alongside its range error. So does a string whose leading digits
 * overflow an unsigned 64-bit value before any other character: `ParseUint` stops at the overflow
 * without reading further. Any other string that is not a decimal integer yields 0.
 */
module Pagination {

  const MinInt64: int := -0x8000_0000_0000_0000
  const MaxInt64: int := 0x7FFF_FFFF_FFFF_FFFF
  const Modulus64: int := 0x1_0000_0000_0000_0000
  const MaxUint64: int := 0xFFFF_FFFF_FFFF_FFFF

  const DefaultLimit: int := 10
  const MaxLimit: int := 1000
  const DefaultPage: int := 1
  const DefaultOffset: int := 0

  predicate InInt64(x: int) { MinInt64 <= x <= MaxInt64 }

  function Min(a: int, b: int): (m: int) { if a <= b then a else b }

  /** Saturation to the 64-bit range. */
  function Clamp64(x: int): (r: int)
    ensures InInt64(r)
    ensures InInt64(x) ==> r == x
    ensures x > MaxInt64 ==> r == MaxInt64
    ensures x < MinInt64 ==> r == MinInt64
  {
    if x > MaxInt64 then MaxInt64 else if x < MinInt64 then MinInt64 else x
  }

  /** Two's-complement wrap-around of Go's 64-bit `int` arithmetic. */
  function Wrap64(x: int): (r: int)
    ensures InInt64(r)
    ensures (r - x) % Modulus64 == 0
    ensures InInt64(x) ==> r == x
  {
    var r := (x - MinInt64) % Modulus64 + MinInt64;
    assert r - x == -Modulus64 * ((x - MinInt64) / Modulus64);
    r
  }

  // ---------------------------------------------------------------- strconv.Atoi

  predicate IsDigit(c: char) { '0' <= c <= '9' }

  predicate AllDigits(s: string) { forall i :: 0 <= i < |s| ==> IsDigit(s[i]) }

  function DigitValue(c: char): (d: nat)
    requires IsDigit(c)
    ensures d < 10
  {
    c as int - '0' as int
  }

  function DigitChar(d: nat): (c: char)
    requires d < 10
    ensures IsDigit(c) && DigitValue(c) == d
  {
    ('0' as int + d) as char
  }

  /** The value of a run of digits, accumulated left to right as `n = n*10 + d`. */
  function DigitsValue(s: string): (n: nat)
    requires AllDigits(s)
  {
    if s == [] then 0 else DigitsValue(s[..|s| - 1]) * 10 + DigitValue(s[|s| - 1])
  }

  predicate HasSign(s: string) { |s| > 0 && (s[0] == '+' || s[0] == '-') }

  /** `s` without its leading sign, if it has one. */
  function Magnitude(s: string): (m: string) { if HasSign(s) then s[1..] else s }

  /** An optional sign followed by at least one ASCII digit: the syntax `Atoi` accepts in base 10. */
  predicate IsDecimal(s: string) { |Magnitude(s)| > 0 && AllDigits(Magnitude(s)) }

  /** The mathematical value of a decimal string, before any range check. */
  function SignedValue(s: string): (v: int)
    requires IsDecimal(s)
  {
    if s[0] == '-' then -(DigitsValue(Magnitude(s)) as int) else DigitsValue(Magnitude(s))
  }

  /** The longest run of digits `s` starts with. */
  function DigitPrefix(s: string): (d: string)
    ensures d <= s && AllDigits(d)
    ensures |d| == |s| || !IsDigit(s[|d|])
  {
    if s == [] || !IsDigit(s[0]) then [] else [s[0]] + DigitPrefix(s[1..])
  }

  /** The one prefix of `s` made of digits and not followed by a digit. */
  lemma {:induction false} DigitPrefixUnique(s: string, d: string)
    requires d <= s && AllDigits(d) && (|d| == |s| || !IsDigit(s[|d|]))
    ensures DigitPrefix(s) == d
  {
  }

  /**
   * The digits after the sign overflow `uint64` before the first non-digit: `ParseUint` then
   * returns its range error without looking at the rest of the string.
   */
  predicate Overflows(s: string)
  {
    DigitsValue(DigitPrefix(Magnitude(s))) > MaxUint64
  }

  /** `strconv.Atoi(s)` with its error dropped. */
  function Atoi(s: string): (r: int)
    ensures InInt64(r)
    ensures !IsDecimal(s) && !Overflows(s) ==> r == 0
    ensures IsDecimal(s) && InInt64(SignedValue(s)) ==> r == SignedValue(s)
    ensures IsDecimal(s) && SignedValue(s) > MaxInt64 ==> r == MaxInt64
    ensures IsDecimal(s) && SignedValue(s) < MinInt64 ==> r == MinInt64
    ensures Overflows(s) ==> r == if HasSign(s) && s[0] == '-' then MinInt64 else MaxInt64
  {
    if IsDecimal(s) then
      DigitPrefixUnique(Magnitude(s), Magnitude(s));
      Clamp64(SignedValue(s))
    else if Overflows(s) then
      (if HasSign(s) && s[0] == '-' then MinInt64 else MaxInt64)
    else 0
  }

  /** Decimal digits of a natural number, most significant first (no leading zeros). */
  function NatDigits(n: nat): (s: string)
    decreases n
  {
    if n < 10 then [DigitChar(n)] else NatDigits(n / 10) + [DigitChar(n % 10)]
  }

  /** `strconv.Itoa`: the canonical decimal form of an integer. */
  function Itoa(n: int): (s: string)
  {
    if n < 0 then "-" + NatDigits(-n) else NatDigits(n)
  }

  lemma {:induction false} NatDigitsValue(n: nat)
    ensures |NatDigits(n)| > 0 && AllDigits(NatDigits(n))
    ensures DigitsValue(NatDigits(n)) == n
    decreases n
  {
    var s := NatDigits(n);
    if n >= 10 {
      NatDigitsValue(n / 10);
      assert s[..|s| - 1] == NatDigits(n / 10);
    }
  }

  /** `Atoi` inverts `Itoa` on every 64-bit integer. */
  lemma AtoiItoa(n: int)
    requires InInt64(n)
    ensures Atoi(Itoa(n)) == n
  {
    var m := if n < 0 then -n else n;
    NatDigitsValue(m);
    var s := Itoa(n);
    if n < 0 {
      assert s[0] == '-' && Magnitude(s) == NatDigits(m);
    } else {
      assert !HasSign(s) && Magnitude(s) == NatDigits(m);
    }
  }

  // ---------------------------------------------------------------- resolution

  /** The three query strings; `""` stands for a parameter that is absent or empty. */
  datatype Query = Query(limit: string, page: string, offset: string)

  /** The resolved values: what goes to `LIMIT`/`OFFSET`, and the page echoed in `meta`. */
  datatype PageParams = PageParams(limit: int, offset: int, page: int)

  /** `(limitInt * pageInt) - limitInt` in Go's 64-bit arithmetic: where page `page` starts. */
  function PageOffset(limit: int, page: int): (offset: int)
    ensures InInt64(offset)
    ensures InInt64(limit * page - limit) ==> offset == limit * (page - 1)
    ensures InInt64(limit * page - limit) && limit >= 0 && page >= 1 ==> offset >= 0
  {
    Wrap64(limit * page - limit)
  }

  /** The successive reassignments of `limitInt`, `pageOffset` and `pageInt` in the list handlers. */
  function Resolve(q: Query): (p: PageParams)
    ensures InInt64(p.limit) && InInt64(p.offset) && InInt64(p.page)
    ensures p.limit <= MaxLimit
    ensures q.limit == "" ==> p.limit == DefaultLimit
    ensures q.limit != "" && Atoi(q.limit) > MaxLimit ==> p.limit == MaxLimit
    ensures q.limit != "" && Atoi(q.limit) <= MaxLimit ==> p.limit == Atoi(q.limit)
    ensures q.page == "" ==> p.page == DefaultPage
    ensures q.page != "" ==> p.page == Atoi(q.page)
    ensures q.page == "" && q.offset == "" ==> p.offset == DefaultOffset
    ensures q.page == "" && q.offset != "" ==> p.offset == Atoi(q.offset)
    ensures q.page != "" ==> p.offset == PageOffset(p.limit, p.page)
  {
    var limit := if q.limit != "" then Atoi(q.limit) else DefaultLimit;
    var limit := if q.limit != "" && limit > MaxLimit then MaxLimit else limit;
    var offset := if q.offset != "" then Atoi(q.offset) else DefaultOffset;
    var page := if q.page != "" then Atoi(q.page) else DefaultPage;
    var offset := if q.page != "" then PageOffset(limit, page) else offset;
    PageParams(limit, offset, page)
  }

  /** With no query parameters the handler lists ten rows from the start and reports page 1. */
  lemma ResolveDefaults()
    ensures Resolve(Query("", "", "")) == PageParams(10, 0, 1)
  {
  }

  /** A present `page` decides the offset whatever `offset` says. */
  lemma PageOverridesOffset(q: Query, otherOffset: string)
    requires q.page != ""
    ensures Resolve(q).offset == Resolve(q.(offset := otherOffset)).offset
    ensures Resolve(q) == Resolve(q.(offset := otherOffset))
  {
  }

  /**
   * Page `k` (counted from 1) starts `limit * (k - 1)` rows in; for a non-negative limit and a
   * page of at least 1 that is a valid, non-negative offset, unless the product overflows.
   */
  lemma PageStart(q: Query)
    requires q.page != ""
    requires InInt64(Resolve(q).limit * Resolve(q).page - Resolve(q).limit)
    ensures Resolve(q).offset == Resolve(q).limit * (Resolve(q).page - 1)
    ensures Resolve(q).limit >= 0 && Resolve(q).page >= 1 ==> Resolve(q).offset >= 0
  {
    var p := Resolve(q);
    assert p.offset == PageOffset(p.limit, p.page);
  }

  /** There is no lower bound: every limit up to 1000, zero and negatives included, passes through. */
  lemma LimitPassesThrough(n: int)
    requires MinInt64 <= n <= MaxLimit
    ensures Resolve(Query(Itoa(n), "", "")).limit == n
  {
    AtoiItoa(n);
  }

  /** Any limit above 1000 becomes exactly 1000. */
  lemma LimitClamped(n: int)
    requires MaxLimit < n
    ensures Resolve(Query(Itoa(n), "", "")).limit == MaxLimit
  {
    NatDigitsValue(n);
    assert !HasSign(Itoa(n)) && Magnitude(Itoa(n)) == Itoa(n);
  }

  /**
   * A non-numeric `limit` gives limit 0, not the default 10; a non-numeric `offset` gives 0.
   * "Non-numeric" excludes strings whose leading digits overflow, which saturate instead.
   */
  lemma NonNumericIsZero(q: Query)
    requires q.limit != "" && !IsDecimal(q.limit) && !Overflows(q.limit)
    ensures Resolve(q).limit == 0
    ensures q.page == "" && q.offset != "" && !IsDecimal(q.offset) && !Overflows(q.offset) ==> Resolve(q).offset == 0
  {
  }

  /**
   * A non-numeric `page` resolves to page 0 and offset `-limit` (wrapped, as Go's negation is);
   * with a positive limit that offset is negative, so the listing fails.
   */
  lemma NonNumericPage(q: Query)
    requires q.page != "" && !IsDecimal(q.page) && !Overflows(q.page)
    ensures Resolve(q).page == 0
    ensures Resolve(q).offset == Wrap64(-Resolve(q).limit)
    ensures Resolve(q).limit > MinInt64 ==> Resolve(q).offset == -Resolve(q).limit
  {
  }

  /**
   * Leading digits that overflow before a non-digit saturate: `18446744073709551616x` gives the
   * largest 64-bit integer, and the same digits after a `-` give the smallest.
   */
  lemma OverflowingPrefix(n: nat, rest: string)
    requires n > MaxUint64
    requires rest == [] || !IsDigit(rest[0])
    ensures Atoi(NatDigits(n) + rest) == MaxInt64
    ensures Atoi("-" + (NatDigits(n) + rest)) == MinInt64
  {
    NatDigitsValue(n);
    var d := NatDigits(n);
    var s := d + rest;
    assert !HasSign(s) && Magnitude(s) == s;
    DigitPrefixUnique(s, d);
    assert Overflows(s);
    var t := "-" + s;
    assert HasSign(t) && Magnitude(t) == s;
    assert Overflows(t);
  }

  /** So `limit=18446744073709551616x` lists 1000 rows, not 0. */
  lemma OverflowingLimitClamped(n: nat, rest: string)
    requires n > MaxUint64
    requires rest == [] || !IsDigit(rest[0])
    ensures Resolve(Query(NatDigits(n) + rest, "", "")).limit == MaxLimit
  {
    OverflowingPrefix(n, rest);
  }

  /** The worked examples: `page=2&limit=5` starts at 5, `offset=7` alone at 7, and with both `page` wins. */
  lemma ResolveExamples()
    ensures Resolve(Query("5", "2", "")).offset == 5
    ensures Resolve(Query("", "", "7")).offset == 7
    ensures Resolve(Query("5", "2", "7")).offset == 5
  {
    AtoiItoa(5);
    AtoiItoa(2);
    AtoiItoa(7);
    assert Itoa(5) == "5" && Itoa(2) == "2" && Itoa(7) == "7";
  }
}
