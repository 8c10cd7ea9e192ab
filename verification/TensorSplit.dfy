/** Layer ranges per GPU as the smallest whole-number split ratios. */
module TensorSplit {
  import opened Common
  import opened Gcd
  import opened LayerRange

  // ---- the fold over all counts ---------------------------------------------

  /** The left fold of gcd over a non-empty list. */
  function GcdAll(counts: seq<int>): (g: int)
    requires counts != []
  {
    if |counts| == 1 then counts[0] else GcdOf(GcdAll(counts[..|counts| - 1]), counts[|counts| - 1])
  }

  ghost predicate DividesAll(d: int, s: seq<int>) {
    forall i | 0 <= i < |s| :: Divides(d, s[i])
  }

  lemma {:induction false} GcdAllIsGreatest(counts: seq<int>)
    requires counts != [] && forall i | 0 <= i < |counts| :: counts[i] >= 1
    ensures GcdAll(counts) >= 1
    ensures DividesAll(GcdAll(counts), counts)
    ensures forall d | DividesAll(d, counts) :: Divides(d, GcdAll(counts))
  {
    if |counts| == 1 {
      DividesSelf(counts[0]);
    } else {
      var n := |counts| - 1;
      var init, g0, g := counts[..n], GcdAll(counts[..n]), GcdAll(counts);
      GcdAllIsGreatest(init);
      GcdOfIsGcd(g0, counts[n]);
      forall i | 0 <= i < |counts| ensures Divides(g, counts[i]) {
        if i < n {
          assert init[i] == counts[i];
          DividesTransitive(g, g0, counts[i]);
        }
      }
      forall d | DividesAll(d, counts) ensures Divides(d, g) {
        assert DividesAll(d, init) by { assert forall i | 0 <= i < n :: init[i] == counts[i]; }
        assert Divides(d, counts[n]);
      }
    }
  }

  /** The ratios printed for --tensor-split. */
  function Ratios(counts: seq<int>): (r: seq<int>)
    requires counts != [] && GcdAll(counts) != 0
    ensures |r| == |counts|
  {
    seq(|counts|, i requires 0 <= i < |counts| => Wrap64(TruncDiv(counts[i], GcdAll(counts))))
  }

  lemma {:induction false} QuotientOfMultiple(g: int, k: int)
    requires g >= 1
    ensures g * k / g == k
  {
    var q, m := g * k / g, g * k % g;
    assert g * (k - q) == m;
    assert g * (k - q) == g + g * (k - q - 1);
  }

  lemma {:induction false} ExactQuotient(c: int, g: int)
    requires g >= 1 && c >= 1 && Divides(g, c)
    ensures c == g * (c / g) && 1 <= c / g <= c
  {
    var k :| c == Times(g, k);
    QuotientOfMultiple(g, k);
    assert c == g * k;
    assert g * k == k + (g - 1) * k;
  }

  /** For natural range sizes each ratio is at least one and is its size over one
      common divisor, so the ratios are in exact proportion to the sizes. */
  lemma {:induction false} RatiosAreProportional(counts: seq<int>, i: nat)
    requires i < |counts| && forall j | 0 <= j < |counts| :: 1 <= counts[j] <= MAX_INT64
    ensures GcdAll(counts) >= 1
    ensures Ratios(counts)[i] >= 1 && counts[i] == GcdAll(counts) * Ratios(counts)[i]
  {
    GcdAllIsGreatest(counts);
    assert Divides(GcdAll(counts), counts[i]);
    ExactQuotient(counts[i], GcdAll(counts));
  }

  /** And no divisor but one is left common to all of them. */
  lemma {:induction false} RatiosAreCoprime(counts: seq<int>, d: int)
    requires counts != [] && forall i | 0 <= i < |counts| :: 1 <= counts[i] <= MAX_INT64
    requires GcdAll(counts) != 0 && d >= 1 && DividesAll(d, Ratios(counts))
    ensures d == 1
  {
    GcdAllIsGreatest(counts);
    var g, r := GcdAll(counts), Ratios(counts);
    forall i | 0 <= i < |counts| ensures Divides(d * g, counts[i]) {
      RatiosAreProportional(counts, i);
      assert Divides(d, r[i]);
      var k :| r[i] == Times(d, k);
      ScaledMultiple(d, g, k, r[i]);
    }
    assert DividesAll(d * g, counts);
    var k :| g == Times(d * g, k);
    OnlyOneDivides(d, g, k);
  }

  lemma ScaledMultiple(d: int, g: int, k: int, r: int)
    requires r == Times(d, k)
    ensures g * r == Times(d * g, k)
  {
  }

  lemma {:induction false} OnlyOneDivides(d: int, g: int, k: int)
    requires d >= 1 && g >= 1 && g == d * g * k
    ensures d == 1
  {
    assert g * (d * k - 1) == 0;
    assert d * k == 1;
  }

  // ---- overflow -------------------------------------------------------------

  /** The number of layers in a range, as Go's int computes it. */
  function Count(r: Range): (n: int)
    requires WellFormed(r)
    ensures n == if r == Range(0, MAX_INT64) then MIN_INT64 else r.end - r.start + 1
  {
    Wrap64(r.end - r.start + 1)
  }

  predicate PossibleCount(n: int) {
    n == MIN_INT64 || 1 <= n <= MAX_INT64
  }

  lemma {:induction false} GcdAllNonZero(counts: seq<int>)
    requires counts != [] && forall i | 0 <= i < |counts| :: PossibleCount(counts[i])
    ensures GcdAll(counts) != 0
  {
    if |counts| > 1 { GcdAllNonZero(counts[..|counts| - 1]); }
  }

  lemma {:induction false} GcdAllOfOverflows(counts: seq<int>)
    requires counts != [] && forall i | 0 <= i < |counts| :: counts[i] == MIN_INT64
    ensures GcdAll(counts) == MIN_INT64
  {
    if |counts| > 1 {
      GcdAllOfOverflows(counts[..|counts| - 1]);
      assert TruncMod(MIN_INT64, MIN_INT64) == 0;
    }
  }

  lemma MixedSigns(g: int, c: int)
    requires g != 0 && 1 <= c <= MAX_INT64
    ensures Wrap64(TruncDiv(c, g)) < 1 || Wrap64(TruncDiv(MIN_INT64, g)) < 1
  {
    if g > 0 {
      QuotientNotLarger(-MIN_INT64, g);
    } else {
      QuotientNotLarger(c, -g);
    }
  }

  lemma QuotientNotLarger(n: int, d: int)
    requires n >= 0 && d >= 1
    ensures 0 <= n / d <= n
  {
    var q := n / d;
    assert n == d * q + n % d;
    assert d * q == q + (d - 1) * q;
  }

  /** The ratios are all positive exactly when either no range spans the whole
      int64 width or every one does; a mixture prints a negative share. */
  lemma RatiosPositiveIff(counts: seq<int>)
    requires counts != [] && forall i | 0 <= i < |counts| :: PossibleCount(counts[i])
    ensures GcdAll(counts) != 0
    ensures (forall i | 0 <= i < |counts| :: Ratios(counts)[i] >= 1)
            <==> (forall i | 0 <= i < |counts| :: counts[i] != MIN_INT64)
                 || (forall i | 0 <= i < |counts| :: counts[i] == MIN_INT64)
  {
    GcdAllNonZero(counts);
    var r := Ratios(counts);
    if forall i | 0 <= i < |counts| :: counts[i] != MIN_INT64 {
      forall i | 0 <= i < |counts| ensures r[i] >= 1 {
        RatiosAreProportional(counts, i);
      }
    } else if forall i | 0 <= i < |counts| :: counts[i] == MIN_INT64 {
      GcdAllOfOverflows(counts);
      assert TruncDiv(MIN_INT64, MIN_INT64) == 1;
    } else {
      var i :| 0 <= i < |counts| && counts[i] == MIN_INT64;
      var j :| 0 <= j < |counts| && counts[j] != MIN_INT64;
      MixedSigns(GcdAll(counts), counts[j]);
      assert r[i] < 1 || r[j] < 1;
    }
  }

  // ---- the flag -------------------------------------------------------------

  function Texts(parts: seq<int>): (r: seq<string>)
    ensures |r| == |parts| && forall i | 0 <= i < |r| :: r[i] == Itoa(parts[i])
  {
    seq(|parts|, i requires 0 <= i < |parts| => Itoa(parts[i]))
  }

  /** strings.Join with a comma. */
  function Joined(texts: seq<string>): (s: string) {
    if texts == [] then ""
    else if |texts| == 1 then texts[0]
    else Joined(texts[..|texts| - 1]) + "," + texts[|texts| - 1]
  }

  function Join(parts: seq<int>): (s: string) {
    Joined(Texts(parts))
  }

  /** The last piece grown by some text. */
  function Extend(pieces: seq<string>, t: string): (r: seq<string>)
    requires pieces != []
    ensures |r| == |pieces|
  {
    pieces[..|pieces| - 1] + [pieces[|pieces| - 1] + t]
  }

  /** The pieces of a text between its commas. */
  function Fields(s: string): (r: seq<string>)
    ensures |r| > 0
  {
    if s == "" then [""]
    else
      var r, c := Fields(s[..|s| - 1]), s[|s| - 1];
      if c == ',' then r + [""] else Extend(r, [c])
  }

  lemma ExtendTwice(pieces: seq<string>, s: string, t: string)
    requires pieces != []
    ensures Extend(Extend(pieces, s), t) == Extend(pieces, s + t)
  {
    assert pieces[|pieces| - 1] + s + t == pieces[|pieces| - 1] + (s + t);
  }

  lemma ExtendByNothing(pieces: seq<string>)
    requires pieces != []
    ensures Extend(pieces, "") == pieces
  {
    assert pieces[|pieces| - 1] + "" == pieces[|pieces| - 1];
  }

  lemma {:induction false} FieldsAppend(s: string, t: string)
    requires ',' !in t
    ensures Fields(s + t) == Extend(Fields(s), t)
  {
    if t == "" {
      assert s + t == s;
      ExtendByNothing(Fields(s));
    } else {
      var n := |t| - 1;
      FieldsAppend(s, t[..n]);
      assert (s + t)[..|s| + n] == s + t[..n] && (s + t)[|s| + n] == t[n] && t[..n] + [t[n]] == t;
      ExtendTwice(Fields(s), t[..n], [t[n]]);
    }
  }

  lemma {:induction false} FieldsAfterComma(s: string, t: string)
    requires ',' !in t
    ensures Fields(s + "," + t) == Fields(s) + [t]
  {
    var r := Fields(s);
    assert (s + ",")[..|s|] == s && (s + ",")[|s|] == ',';
    assert Fields(s + ",") == r + [""];
    FieldsAppend(s + ",", t);
    assert "" + t == t && (r + [""])[..|r|] == r;
  }

  lemma {:induction false} ItoaHasNoComma(n: int)
    ensures ',' !in Itoa(n)
  {
  }

  lemma {:induction false} FieldsOfJoined(texts: seq<string>)
    requires texts != [] && forall i | 0 <= i < |texts| :: ',' !in texts[i]
    ensures Fields(Joined(texts)) == texts
  {
    var n := |texts| - 1;
    if n == 0 {
      FieldsOfOne(texts[0]);
    } else {
      FieldsOfJoined(texts[..n]);
      FieldsAfterComma(Joined(texts[..n]), texts[n]);
      assert texts == texts[..n] + [texts[n]];
    }
  }

  /** The flag is the decimal numbers in order, separated by commas. */
  lemma {:induction false} FieldsOfJoin(parts: seq<int>)
    requires parts != []
    ensures Fields(Join(parts)) == Texts(parts)
  {
    forall i | 0 <= i < |parts| ensures ',' !in Texts(parts)[i] {
      ItoaHasNoComma(parts[i]);
    }
    FieldsOfJoined(Texts(parts));
  }

  lemma {:induction false} FieldsOfOne(t: string)
    requires ',' !in t
    ensures Fields(t) == [t]
  {
    FieldsAppend("", t);
    assert "" + t == t && [""][..0] == [];
  }

  /** The layer counts of all ranges, or None when one does not parse. */
  function Counts(ranges: seq<string>): (r: Option<seq<int>>)
    ensures r.Some? ==> |r.value| == |ranges| && forall i | 0 <= i < |ranges| :: PossibleCount(r.value[i])
  {
    if ranges == [] then Some([])
    else
      var init, last := Counts(ranges[..|ranges| - 1]), Parse(ranges[|ranges| - 1]);
      if init.None? || last.None? then None else Some(init.value + [Count(last.value)])
  }

  /** The counts are those of the parsed ranges, position by position. */
  lemma {:induction false} CountsAreParsed(ranges: seq<string>, i: nat)
    requires i < |ranges|
    ensures Counts(ranges).Some? ==>
              Parse(ranges[i]).Some? && Counts(ranges).value[i] == Count(Parse(ranges[i]).value)
    ensures Parse(ranges[i]).None? ==> Counts(ranges).None?
  {
    if i < |ranges| - 1 { CountsAreParsed(ranges[..|ranges| - 1], i); }
  }

  lemma CountsStep(ranges: seq<string>, i: nat)
    requires i < |ranges|
    ensures Counts(ranges[..i + 1]) ==
            if Counts(ranges[..i]).None? || Parse(ranges[i]).None? then None
            else Some(Counts(ranges[..i]).value + [Count(Parse(ranges[i]).value)])
  {
    assert ranges[..i + 1][..i] == ranges[..i];
  }

  method ParseCounts(ranges: seq<string>) returns (counts: seq<int>, valid: bool)
    ensures Counts(ranges) == if valid then Some(counts) else None
  {
    counts, valid := [], true;
    for i := 0 to |ranges|
      invariant Counts(ranges[..i]) == Some(counts)
    {
      CountsStep(ranges, i);
      var r := Parse(ranges[i]);
      if r.None? {
        CountsAreParsed(ranges, i);
        return [], false;
      }
      counts := counts + [Count(r.value)];
    }
    assert ranges[..|ranges|] == ranges;
  }

  method GcdOfAll(counts: seq<int>) returns (g: int)
    requires counts != []
    ensures g == GcdAll(counts)
  {
    g := counts[0];
    for i := 1 to |counts|
      invariant g == GcdAll(counts[..i])
    {
      assert counts[..i + 1][..i] == counts[..i];
      g := GcdLoop(g, counts[i]);
    }
    assert counts[..|counts|] == counts;
  }

  /** calculateTensorSplit: nothing for one GPU, the reduced layer ratios when
      every GPU has a parsable range, and equal shares otherwise. */
  method CalculateTensorSplit(gpuCount: int, layerSplit: seq<string>) returns (flag: string)
    requires MIN_INT32 <= gpuCount <= MAX_INT32
    ensures gpuCount <= 1 ==> flag == ""
    ensures gpuCount > 1 && Wrap32(|layerSplit|) == gpuCount && Counts(layerSplit).Some? ==>
              var counts := Counts(layerSplit).value;
              counts != [] && GcdAll(counts) != 0 && flag == Join(Ratios(counts))
    ensures gpuCount > 1 && !(Wrap32(|layerSplit|) == gpuCount && Counts(layerSplit).Some?) ==>
              flag == Join(seq(gpuCount, i => 1))
  {
    if gpuCount <= 1 {
      return "";
    }
    if |layerSplit| > 0 && Wrap32(|layerSplit|) == gpuCount {
      var counts, valid := ParseCounts(layerSplit);
      if valid {
        var g := GcdOfAll(counts);
        GcdAllNonZero(counts);
        flag := Join(seq(|counts|, i requires 0 <= i < |counts| => Wrap64(TruncDiv(counts[i], g))));
        assert seq(|counts|, i requires 0 <= i < |counts| => Wrap64(TruncDiv(counts[i], g))) == Ratios(counts);
        return;
      }
    }
    flag := Join(seq(gpuCount, i => 1));
  }
}
