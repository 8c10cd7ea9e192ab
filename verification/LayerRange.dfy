/** Parsing "start-end" layer ranges, as strconv.Atoi reads their numbers. */
module LayerRange {
  import opened Common

  predicate IsDigit(c: char) {
    '0' <= c <= '9'
  }

  predicate AllDigits(s: string) {
    s != "" && forall i | 0 <= i < |s| :: IsDigit(s[i])
  }

  function Value(s: string): (r: int)
    requires forall i | 0 <= i < |s| :: IsDigit(s[i])
  {
    if s == "" then 0 else 10 * Value(s[..|s| - 1]) + (s[|s| - 1] as int - '0' as int)
  }

  /** strconv.Atoi: an optional sign, at least one digit, within int64. */
  function Atoi(s: string): (r: Option<int>) {
    var negative := s != "" && s[0] == '-';
    var digits := if s != "" && (s[0] == '-' || s[0] == '+') then s[1..] else s;
    if !AllDigits(digits) then None
    else
      var n := if negative then -Value(digits) else Value(digits);
      if MIN_INT64 <= n <= MAX_INT64 then Some(n) else None
  }

  /** The part before the first dash and the part after it. */
  function CutAtDash(s: string): (r: Option<(string, string)>)
    ensures r.Some? ==> s == r.value.0 + "-" + r.value.1 && '-' !in r.value.0
    ensures r.None? ==> '-' !in s
  {
    if s == "" then None
    else if s[0] == '-' then Some(("", s[1..]))
    else
      assert s == [s[0]] + s[1..];
      var rest := CutAtDash(s[1..]);
      if rest.None? then None else Some(([s[0]] + rest.value.0, rest.value.1))
  }

  datatype Range = Range(start: int, end: int)

  predicate WellFormed(r: Range) {
    0 <= r.start <= r.end <= MAX_INT64
  }

  /** parseLayerRange. */
  function Parse(s: string): (r: Option<Range>)
    ensures r.Some? ==> WellFormed(r.value)
  {
    var parts := CutAtDash(s);
    if parts.None? then None
    else
      var start, end := Atoi(TrimSpace(parts.value.0)), Atoi(TrimSpace(parts.value.1));
      if start.None? || end.None? then None
      else if start.value < 0 || end.value < 0 || start.value > end.value then None
      else Some(Range(start.value, end.value))
  }

  /** A numeral of a natural number: digits, with an optional plus sign, or a minus
      sign before zeros. */
  predicate Denotes(t: string, n: int) {
    var digits := if t != "" && (t[0] == '-' || t[0] == '+') then t[1..] else t;
    AllDigits(digits) && Value(digits) == n && (t[0] == '-' ==> n == 0)
  }

  lemma AtoiDenotes(t: string, n: int)
    requires 0 <= n <= MAX_INT64
    ensures Atoi(t) == Some(n) <==> Denotes(t, n)
  {
    var digits := if t != "" && (t[0] == '-' || t[0] == '+') then t[1..] else t;
    if AllDigits(digits) { ValueNatural(digits); }
  }

  lemma {:induction false} ValueNatural(s: string)
    requires forall i | 0 <= i < |s| :: IsDigit(s[i])
    ensures Value(s) >= 0
  {
    if s != "" { ValueNatural(s[..|s| - 1]); }
  }

  /** The two sides of the first dash of `s` denote the ends of `r`. */
  ghost predicate Spells(s: string, r: Range, a: string, b: string) {
    s == a + "-" + b && '-' !in a && Denotes(TrimSpace(a), r.start) && Denotes(TrimSpace(b), r.end)
  }

  /** Exactly which strings parse, and to what: the text before the first dash and the
      text after it are, up to surrounding white space, numerals of an ordered range
      within int64. */
  lemma ParseIff(s: string, r: Range)
    ensures Parse(s) == Some(r) <==> WellFormed(r) && exists a, b :: Spells(s, r, a, b)
  {
    if WellFormed(r) {
      if a, b :| Spells(s, r, a, b) {
        CutOfDigits(a, b);
        AtoiDenotes(TrimSpace(a), r.start);
        AtoiDenotes(TrimSpace(b), r.end);
      }
      if Parse(s) == Some(r) {
        var parts := CutAtDash(s).value;
        AtoiDenotes(TrimSpace(parts.0), r.start);
        AtoiDenotes(TrimSpace(parts.1), r.end);
        assert Spells(s, r, parts.0, parts.1);
      }
    }
  }

  function Format(r: Range): (s: string)
    requires WellFormed(r)
  {
    Digits(r.start) + "-" + Digits(r.end)
  }

  lemma {:induction false} ValueOfDigits(n: nat)
    ensures Value(Digits(n)) == n
  {
    if n >= 10 {
      ValueOfDigits(n / 10);
      assert Digits(n)[..|Digits(n)| - 1] == Digits(n / 10);
    }
  }

  lemma AtoiOfDigits(n: nat)
    requires n <= MAX_INT64
    ensures Atoi(TrimSpace(Digits(n))) == Some(n)
  {
    ValueOfDigits(n);
  }

  lemma {:induction false} CutOfDigits(a: string, b: string)
    requires '-' !in a
    ensures CutAtDash(a + "-" + b) == Some((a, b))
  {
    var s := a + "-" + b;
    if a == "" {
      assert s[1..] == b;
    } else {
      assert s[1..] == a[1..] + "-" + b;
      CutOfDigits(a[1..], b);
      assert [a[0]] + a[1..] == a;
    }
  }

  /** Printing a range and parsing it gives the range back. */
  lemma ParseOfFormat(r: Range)
    requires WellFormed(r)
    ensures Parse(Format(r)) == Some(r)
  {
    CutOfDigits(Digits(r.start), Digits(r.end));
    AtoiOfDigits(r.start);
    AtoiOfDigits(r.end);
  }
}
