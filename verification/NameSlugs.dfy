/** Slugs for model file names and host labels for fleet nodes. */
module NameSlugs {
  import opened Common

  // ---- trimming -------------------------------------------------------------

  function TrimLeft(s: string, cut: set<char>): (r: string) {
    if s != [] && s[0] in cut then TrimLeft(s[1..], cut) else s
  }

  function TrimRight(s: string, cut: set<char>): (r: string) {
    if s != [] && s[|s| - 1] in cut then TrimRight(s[..|s| - 1], cut) else s
  }

  function Trim(s: string, cut: set<char>): (r: string) {
    TrimRight(TrimLeft(s, cut), cut)
  }

  predicate Trimmed(s: string, cut: set<char>) {
    s == [] || (s[0] !in cut && s[|s| - 1] !in cut)
  }

  lemma {:induction false} TrimLeftSnoc(s: string, c: char, cut: set<char>)
    ensures TrimLeft(s + [c], cut) ==
            if TrimLeft(s, cut) == [] && c in cut then [] else TrimLeft(s, cut) + [c]
  {
    if s == [] {
      assert s + [c] == [c] && [c][1..] == [];
    } else {
      assert (s + [c])[1..] == s[1..] + [c];
      TrimLeftSnoc(s[1..], c, cut);
    }
  }

  /** Trim takes a stretch of the string whose ends are both kept characters. */
  lemma {:induction false} TrimRightTakes(s: string, cut: set<char>) returns (n: nat)
    ensures n <= |s| && TrimRight(s, cut) == s[..n]
    ensures n > 0 ==> s[n - 1] !in cut
  {
    if s != [] && s[|s| - 1] in cut {
      n := TrimRightTakes(s[..|s| - 1], cut);
      assert s[..|s| - 1][..n] == s[..n];
    } else {
      n := |s|;
    }
  }

  lemma {:induction false} TrimLeftTakes(s: string, cut: set<char>) returns (n: nat)
    ensures n <= |s| && TrimLeft(s, cut) == s[n..]
    ensures n < |s| ==> s[n] !in cut
  {
    if s != [] && s[0] in cut {
      var m := TrimLeftTakes(s[1..], cut);
      n := m + 1;
      assert s[1..][m..] == s[n..];
    } else {
      n := 0;
    }
  }

  lemma TrimTakes(s: string, cut: set<char>) returns (i: nat, j: nat)
    ensures i <= j <= |s| && Trim(s, cut) == s[i..j]
    ensures Trimmed(Trim(s, cut), cut)
  {
    i := TrimLeftTakes(s, cut);
    var n := TrimRightTakes(s[i..], cut);
    j := i + n;
    assert s[i..][..n] == s[i..j];
  }

  lemma TrimmedIsFixed(s: string, cut: set<char>)
    requires Trimmed(s, cut)
    ensures Trim(s, cut) == s
  {
  }

  // ---- model file names -----------------------------------------------------

  predicate Alphanumeric(c: char) {
    'A' <= c <= 'Z' || 'a' <= c <= 'z' || '0' <= c <= '9'
  }

  predicate SlugChar(c: char) {
    Alphanumeric(c) || c == '.' || c == '-' || c == '_'
  }

  const SLUG_CUT: set<char> := {'-', '.', '_'}

  predicate DoubleAt(s: string, i: int) {
    0 <= i < |s| - 1 && s[i] == '-' && s[i + 1] == '-'
  }

  predicate HasDouble(s: string) {
    exists i | 0 <= i < |s| - 1 :: DoubleAt(s, i)
  }

  predicate IsSlug(s: string) {
    && (forall i | 0 <= i < |s| :: SlugChar(s[i]))
    && !HasDouble(s)
    && Trimmed(s, SLUG_CUT)
  }

  /** Every character outside the slug alphabet replaced by a dash. */
  function Dashed(s: string): (r: string) {
    if s == [] then []
    else Dashed(s[..|s| - 1]) + [if SlugChar(s[|s| - 1]) then s[|s| - 1] else '-']
  }

  function Push(s: string, c: char): (r: string) {
    if c == '-' && s != [] && s[|s| - 1] == '-' then s else s + [c]
  }

  /** Every run of dashes as one dash. */
  function Collapse(s: string): (r: string) {
    if s == [] then [] else Push(Collapse(s[..|s| - 1]), s[|s| - 1])
  }

  /** The documented rule: replace, collapse, trim. */
  function Slug(s: string): (r: string) {
    Trim(Collapse(Dashed(s)), SLUG_CUT)
  }

  /** strings.ReplaceAll(s, "--", "-"): non-overlapping, left to right. */
  function ReplaceDoubles(s: string): (r: string) {
    if |s| < 2 then s
    else if s[0] == '-' && s[1] == '-' then ['-'] + ReplaceDoubles(s[2..])
    else [s[0]] + ReplaceDoubles(s[1..])
  }

  lemma CollapseSnoc(s: string, c: char)
    ensures Collapse(s + [c]) == Push(Collapse(s), c)
  {
    assert (s + [c])[..|s|] == s;
  }

  lemma SnocLater(p: string, c: char, t: string)
    ensures p + ([c] + t) == (p + [c]) + t
  {
  }

  lemma SnocCongruent(p: string, q: string, c: char)
    requires Collapse(p) == Collapse(q)
    ensures Collapse(p + [c]) == Collapse(q + [c])
  {
    CollapseSnoc(p, c);
    CollapseSnoc(q, c);
  }

  lemma DoubleIsSingle(p: string)
    ensures Collapse((p + ['-']) + ['-']) == Collapse(p + ['-'])
  {
    CollapseSnoc(p, '-');
    CollapseSnoc(p + ['-'], '-');
  }

  /** Replacing pairs of dashes does not change where the collapse ends up. */
  lemma {:induction false} ReplaceKeepsCollapse(p: string, q: string, s: string)
    requires Collapse(p) == Collapse(q)
    ensures Collapse(p + ReplaceDoubles(s)) == Collapse(q + s)
    decreases |s|
  {
    if s == [] {
      assert p + s == p && q + s == q;
    } else {
      var c, t := s[0], s[1..];
      assert s == [c] + t;
      SnocLater(q, c, t);
      SnocCongruent(p, q, c);
      if |s| == 1 {
        assert t == [];
        assert q + s == q + [c] && p + s == p + [c];
      } else if c == '-' && s[1] == '-' {
        var u := s[2..];
        assert t == ['-'] + u;
        SnocLater(q + [c], '-', u);
        DoubleIsSingle(q);
        ReplaceKeepsCollapse(p + [c], (q + [c]) + ['-'], u);
        SnocLater(p, c, ReplaceDoubles(u));
      } else {
        ReplaceKeepsCollapse(p + [c], q + [c], t);
        SnocLater(p, c, ReplaceDoubles(t));
      }
    }
  }

  lemma {:induction false} ReplaceShortens(s: string)
    ensures |ReplaceDoubles(s)| <= |s|
    ensures HasDouble(s) ==> |ReplaceDoubles(s)| < |s|
  {
    if |s| >= 2 && s[0] == '-' && s[1] == '-' {
      ReplaceShortens(s[2..]);
    } else if |s| >= 2 {
      ReplaceShortens(s[1..]);
      if HasDouble(s) {
        var i :| 0 <= i < |s| - 1 && DoubleAt(s, i);
        assert DoubleAt(s[1..], i - 1);
      }
    }
  }

  lemma {:induction false} CollapseEndsAlike(s: string)
    ensures s != [] ==> Collapse(s) != [] && Collapse(s)[|Collapse(s)| - 1] == s[|s| - 1]
  {
  }

  lemma StretchHasNoDouble(s: string, i: nat, j: nat)
    requires i <= j <= |s| && !HasDouble(s)
    ensures !HasDouble(s[i..j])
  {
    forall k | 0 <= k < j - i - 1 ensures !DoubleAt(s[i..j], k) {
      assert !DoubleAt(s, i + k);
    }
  }

  lemma PushHasNoDouble(s: string, c: char)
    requires !HasDouble(s)
    ensures !HasDouble(Push(s, c))
  {
    forall k | 0 <= k < |Push(s, c)| - 1 ensures !DoubleAt(Push(s, c), k) {
      assert !DoubleAt(s, k);
    }
  }

  lemma {:induction false} CollapseHasNoDouble(s: string)
    ensures !HasDouble(Collapse(s))
  {
    if s != [] {
      CollapseHasNoDouble(s[..|s| - 1]);
      PushHasNoDouble(Collapse(s[..|s| - 1]), s[|s| - 1]);
    }
  }

  lemma {:induction false} CollapseFixes(s: string)
    requires !HasDouble(s)
    ensures Collapse(s) == s
  {
    if s != [] {
      var n := |s| - 1;
      StretchHasNoDouble(s, 0, n);
      assert s[0..n] == s[..n];
      CollapseFixes(s[..n]);
      assert !DoubleAt(s, n - 1);
      assert s == s[..n] + [s[n]];
    }
  }

  lemma {:induction false} CollapseTrimLeft(s: string)
    ensures Collapse(TrimLeft(s, SLUG_CUT)) == TrimLeft(Collapse(s), SLUG_CUT)
  {
    if s != [] {
      var t, c := s[..|s| - 1], s[|s| - 1];
      assert s == t + [c];
      CollapseTrimLeft(t);
      TrimLeftSnoc(t, c, SLUG_CUT);
      TrimLeftSnoc(Collapse(t), c, SLUG_CUT);
      CollapseSnoc(TrimLeft(t, SLUG_CUT), c);
      var n := TrimLeftTakes(Collapse(t), SLUG_CUT);
      CollapseEndsAlike(TrimLeft(t, SLUG_CUT));
    }
  }

  lemma {:induction false} CollapseTrimRight(s: string)
    ensures Collapse(TrimRight(s, SLUG_CUT)) == TrimRight(Collapse(s), SLUG_CUT)
  {
    if s != [] {
      var t, c := s[..|s| - 1], s[|s| - 1];
      CollapseTrimRight(t);
      assert (Collapse(t) + [c])[..|Collapse(t)|] == Collapse(t);
    }
  }

  /** Trimming first and collapsing after comes to the same. */
  lemma CollapseTrim(s: string)
    ensures Collapse(Trim(s, SLUG_CUT)) == Trim(Collapse(s), SLUG_CUT)
  {
    CollapseTrimLeft(s);
    CollapseTrimRight(TrimLeft(s, SLUG_CUT));
  }

  /** The character loop: a replaced character writes a dash unless the last one did. */
  method WriteDashed(s: string) returns (b: string)
    ensures Collapse(b) == Collapse(Dashed(s))
  {
    b := [];
    var prevDash := false;
    for i := 0 to |s|
      invariant Collapse(b) == Collapse(Dashed(s[..i]))
      invariant prevDash ==> b != [] && b[|b| - 1] == '-'
    {
      assert s[..i + 1][..i] == s[..i];
      CollapseSnoc(Dashed(s[..i]), if SlugChar(s[i]) then s[i] else '-');
      CollapseEndsAlike(b);
      if SlugChar(s[i]) {
        CollapseSnoc(b, s[i]);
        b := b + [s[i]];
        prevDash := false;
      } else if !prevDash {
        CollapseSnoc(b, '-');
        b := b + ['-'];
        prevDash := true;
      }
    }
    assert s[..|s|] == s;
  }

  /** sanitizeModelFilename. */
  method SanitizeModelFilename(s: string) returns (out: string)
    ensures out == Slug(s)
  {
    if s == "" {
      return "";
    }
    var b := WriteDashed(s);
    out := Trim(b, SLUG_CUT);
    CollapseTrim(b);
    while HasDouble(out)
      invariant Collapse(out) == Slug(s)
      decreases |out|
    {
      ReplaceShortens(out);
      ReplaceKeepsCollapse([], [], out);
      assert [] + ReplaceDoubles(out) == ReplaceDoubles(out) && [] + out == out;
      out := ReplaceDoubles(out);
    }
    CollapseFixes(out);
  }

  predicate AllSlugChars(s: string) {
    forall i | 0 <= i < |s| :: SlugChar(s[i])
  }

  lemma {:induction false} DashedIsAllowed(s: string)
    ensures AllSlugChars(Dashed(s))
  {
    if s != [] { DashedIsAllowed(s[..|s| - 1]); }
  }

  lemma {:induction false} DashedFixes(s: string)
    requires AllSlugChars(s)
    ensures Dashed(s) == s
  {
    if s != [] {
      DashedFixes(s[..|s| - 1]);
      assert s == s[..|s| - 1] + [s[|s| - 1]];
    }
  }

  lemma {:induction false} CollapseStaysAllowed(s: string)
    requires AllSlugChars(s)
    ensures AllSlugChars(Collapse(s))
  {
    if s != [] { CollapseStaysAllowed(s[..|s| - 1]); }
  }

  /** A slug spelled out: letters, digits, dots, dashes and underscores, no two dashes in
      a row, and a letter or digit at either end unless it is empty. */
  lemma IsSlugIff(s: string)
    ensures IsSlug(s) <==>
            && (forall i | 0 <= i < |s| ::
                  || 'a' <= s[i] <= 'z' || 'A' <= s[i] <= 'Z' || '0' <= s[i] <= '9'
                  || s[i] == '.' || s[i] == '_' || s[i] == '-')
            && (forall i | 0 < i < |s| :: !(s[i - 1] == '-' && s[i] == '-'))
            && (s != "" ==> s[0] !in {'-', '.', '_'} && s[|s| - 1] !in {'-', '.', '_'})
  {
    if forall i | 0 < i < |s| :: !(s[i - 1] == '-' && s[i] == '-') {
      forall k | 0 <= k < |s| - 1 ensures !DoubleAt(s, k) {
        assert !(s[k + 1 - 1] == '-' && s[k + 1] == '-');
      }
    }
    if !HasDouble(s) {
      forall i | 0 < i < |s| ensures !(s[i - 1] == '-' && s[i] == '-') {
        assert !DoubleAt(s, i - 1);
      }
    }
  }

  /** Each character outside that alphabet gives way to a dash, in place. */
  lemma {:induction false} DashedInPlace(s: string, i: nat)
    requires i < |s|
    ensures |Dashed(s)| == |s|
    ensures Dashed(s)[i] == if Alphanumeric(s[i]) || s[i] in {'.', '-', '_'} then s[i] else '-'
  {
    DashedLength(s);
    if i < |s| - 1 {
      DashedLength(s[..|s| - 1]);
      DashedInPlace(s[..|s| - 1], i);
    } else {
      DashedLength(s[..|s| - 1]);
    }
  }

  lemma {:induction false} DashedLength(s: string)
    ensures |Dashed(s)| == |s|
  {
    if s != [] { DashedLength(s[..|s| - 1]); }
  }

  /** Every result is a slug. */
  lemma SlugIsSlug(s: string)
    ensures IsSlug(Slug(s))
  {
    DashedIsAllowed(s);
    CollapseStaysAllowed(Dashed(s));
    CollapseHasNoDouble(Dashed(s));
    var c := Collapse(Dashed(s));
    var i, j := TrimTakes(c, SLUG_CUT);
    StretchHasNoDouble(c, i, j);
  }

  /** Exactly the slugs are left alone, so sanitizing twice is sanitizing once. */
  lemma SlugFixesExactlySlugs(s: string)
    ensures Slug(s) == s <==> IsSlug(s)
    ensures Slug(Slug(s)) == Slug(s)
  {
    SlugIsSlug(s);
    FixesSlug(Slug(s));
    if IsSlug(s) { FixesSlug(s); }
  }

  lemma FixesSlug(s: string)
    requires IsSlug(s)
    ensures Slug(s) == s
  {
    DashedFixes(s);
    CollapseFixes(s);
    TrimmedIsFixed(s, SLUG_CUT);
  }

  /** The letters and digits of a string, in order. */
  function Alphanumerics(s: string): (r: string) {
    if s == [] then []
    else Alphanumerics(s[..|s| - 1]) + if Alphanumeric(s[|s| - 1]) then [s[|s| - 1]] else []
  }

  lemma {:induction false} AlphanumericsAppend(a: string, b: string)
    ensures Alphanumerics(a + b) == Alphanumerics(a) + Alphanumerics(b)
  {
    if b == [] {
      assert a + b == a;
    } else {
      assert (a + b)[..|a + b| - 1] == a + b[..|b| - 1];
      AlphanumericsAppend(a, b[..|b| - 1]);
    }
  }

  lemma {:induction false} DashedKeepsAlphanumerics(s: string)
    ensures Alphanumerics(Collapse(Dashed(s))) == Alphanumerics(s)
  {
    if s != [] {
      var t, c := s[..|s| - 1], s[|s| - 1];
      DashedKeepsAlphanumerics(t);
      var d := if SlugChar(c) then c else '-';
      CollapseSnoc(Dashed(t), d);
      var u := Collapse(Dashed(t));
      assert (u + [d])[..|u|] == u;
    }
  }

  lemma {:induction false} TrimLeftKeepsAlphanumerics(s: string, cut: set<char>)
    requires forall c | c in cut :: !Alphanumeric(c)
    ensures Alphanumerics(TrimLeft(s, cut)) == Alphanumerics(s)
  {
    if s != [] && s[0] in cut {
      TrimLeftKeepsAlphanumerics(s[1..], cut);
      assert s == [s[0]] + s[1..];
      AlphanumericsAppend([s[0]], s[1..]);
      assert [s[0]][..0] == [];
    }
  }

  lemma {:induction false} TrimRightKeepsAlphanumerics(s: string, cut: set<char>)
    requires forall c | c in cut :: !Alphanumeric(c)
    ensures Alphanumerics(TrimRight(s, cut)) == Alphanumerics(s)
  {
    if s != [] && s[|s| - 1] in cut {
      TrimRightKeepsAlphanumerics(s[..|s| - 1], cut);
    }
  }

  /** Sanitizing loses, adds and reorders no letter and no digit. */
  lemma SlugKeepsAlphanumerics(s: string)
    ensures Alphanumerics(Slug(s)) == Alphanumerics(s)
  {
    DashedKeepsAlphanumerics(s);
    TrimLeftKeepsAlphanumerics(Collapse(Dashed(s)), SLUG_CUT);
    TrimRightKeepsAlphanumerics(TrimLeft(Collapse(Dashed(s)), SLUG_CUT), SLUG_CUT);
  }

  /** canonicalModelBasename; None is a model without GGUF metadata. */
  function CanonicalBasename(ggufName: Option<string>, modelName: string): (r: string) {
    var fromGguf := if ggufName.Some? then Slug(ggufName.value) else "";
    var name := if fromGguf == "" then Slug(modelName) else fromGguf;
    (if name == "" then "model" else name) + ".gguf"
  }

  lemma ExtensionKeepsSlug(name: string)
    requires IsSlug(name) && name != ""
    ensures IsSlug(name + ".gguf")
  {
    var r := name + ".gguf";
    forall i | 0 <= i < |r| - 1 ensures !DoubleAt(r, i) {
      assert !DoubleAt(name, i);
    }
  }

  /** A slug is empty exactly when its source has no letter and no digit. */
  lemma {:induction false} SlugIsEmptyIff(s: string)
    ensures Slug(s) == "" <==> Alphanumerics(s) == ""
  {
    SlugKeepsAlphanumerics(s);
    SlugIsSlug(s);
    var t := Slug(s);
    if t != "" {
      AlphanumericsAppend([t[0]], t[1..]);
      assert t == [t[0]] + t[1..] && Alphanumerics([t[0]]) == [t[0]];
    }
  }

  /** The first of GGUF name, model name and fallback that has a letter or a digit. */
  function NameSource(ggufName: Option<string>, modelName: string): (r: string) {
    if ggufName.Some? && Alphanumerics(ggufName.value) != "" then ggufName.value
    else if Alphanumerics(modelName) != "" then modelName
    else "model"
  }

  lemma FallbackIsSlug()
    ensures IsSlug("model") && Slug("model") == "model"
  {
    assert "model"[4] == 'l';
    FixesSlug("model");
  }

  /** A canonical basename is the slug of the first usable name with the extension,
      and still a slug as a whole. */
  lemma CanonicalBasenameIsSlug(ggufName: Option<string>, modelName: string)
    ensures CanonicalBasename(ggufName, modelName) == Slug(NameSource(ggufName, modelName)) + ".gguf"
    ensures Slug(NameSource(ggufName, modelName)) != ""
    ensures IsSlug(CanonicalBasename(ggufName, modelName))
  {
    if ggufName.Some? { SlugIsEmptyIff(ggufName.value); }
    SlugIsEmptyIff(modelName);
    FallbackIsSlug();
    SlugIsSlug(NameSource(ggufName, modelName));
    ExtensionKeepsSlug(Slug(NameSource(ggufName, modelName)));
  }

  // ---- fleet node names -----------------------------------------------------

  const MAX_LABEL := 63

  predicate HostChar(c: char) {
    'a' <= c <= 'z' || '0' <= c <= '9' || c == '-'
  }

  predicate IsHostText(s: string) {
    forall i | 0 <= i < |s| :: HostChar(s[i])
  }

  /** A host label: letters, digits and inner hyphens (section 2.1 of RFC 1123),
      at most 63 octets (section 2.3.4 of RFC 1035). */
  predicate IsLabel(s: string) {
    1 <= |s| <= MAX_LABEL && IsHostText(s) && Trimmed(s, {'-'})
  }

  function Mapped(lower: char -> char, s: string): (r: string) {
    seq(|s|, i requires 0 <= i < |s| => lower(s[i]))
  }

  /** Every run of characters outside the host alphabet replaced by one hyphen. */
  function ReplaceRuns(s: string): (r: string) {
    if s == [] then []
    else
      var t, c := s[..|s| - 1], s[|s| - 1];
      if HostChar(c) then ReplaceRuns(t) + [c]
      else if t != [] && !HostChar(t[|t| - 1]) then ReplaceRuns(t)
      else ReplaceRuns(t) + ['-']
  }

  function Label(lower: char -> char, s: string): (r: string) {
    var t := Trim(ReplaceRuns(Mapped(lower, s)), {'-'});
    if t == "" then "fleetnode"
    else if |t| > MAX_LABEL then TrimRight(t[..MAX_LABEL], {'-'})
    else t
  }

  lemma {:induction false} ReplaceRunsIsHostText(s: string)
    ensures IsHostText(ReplaceRuns(s))
  {
    if s != [] { ReplaceRunsIsHostText(s[..|s| - 1]); }
  }

  lemma {:induction false} ReplaceRunsFixes(s: string)
    requires IsHostText(s)
    ensures ReplaceRuns(s) == s
  {
    if s != [] {
      ReplaceRunsFixes(s[..|s| - 1]);
      assert s == s[..|s| - 1] + [s[|s| - 1]];
    }
  }

  /** A label spelled out. */
  lemma IsLabelIff(s: string)
    ensures IsLabel(s) <==>
            && 1 <= |s| <= 63 && s[0] != '-' && s[|s| - 1] != '-'
            && (forall i | 0 <= i < |s| :: 'a' <= s[i] <= 'z' || '0' <= s[i] <= '9' || s[i] == '-')
  {
  }

  /** A run of other characters between host texts gives way to one hyphen. */
  lemma {:induction false} OneHyphenPerRun(a: string, run: string, b: string)
    requires IsHostText(a) && IsHostText(b) && run != [] && forall i | 0 <= i < |run| :: !HostChar(run[i])
    ensures ReplaceRuns(a + run + b) == a + ['-'] + b
    decreases |run| + |b|
  {
    var s := a + run + b;
    if b != [] {
      assert s[..|s| - 1] == a + run + b[..|b| - 1] && s[|s| - 1] == b[|b| - 1];
      OneHyphenPerRun(a, run, b[..|b| - 1]);
      assert a + ['-'] + b[..|b| - 1] + [b[|b| - 1]] == a + ['-'] + b;
    } else if |run| > 1 {
      assert s[..|s| - 1] == a + run[..|run| - 1] + [] && s[|s| - 1] == run[|run| - 1];
      assert s[..|s| - 1][|s| - 2] == run[|run| - 2];
      OneHyphenPerRun(a, run[..|run| - 1], []);
    } else {
      assert s[..|s| - 1] == a && s[|s| - 1] == run[0];
      ReplaceRunsFixes(a);
      assert a != [] ==> HostChar(a[|a| - 1]);
    }
  }

  /** Every result is a host label, whatever the input. */
  lemma LabelIsLabel(lower: char -> char, s: string)
    ensures IsLabel(Label(lower, s))
  {
    var u := ReplaceRuns(Mapped(lower, s));
    ReplaceRunsIsHostText(Mapped(lower, s));
    TrimIsHostText(u);
    if |Trim(u, {'-'})| > MAX_LABEL { CutIsLabel(Trim(u, {'-'})); }
    assert IsHostText("fleetnode");
  }

  lemma TrimIsHostText(u: string)
    requires IsHostText(u)
    ensures IsHostText(Trim(u, {'-'})) && Trimmed(Trim(u, {'-'}), {'-'})
  {
    var i, j := TrimTakes(u, {'-'});
  }

  lemma CutIsLabel(t: string)
    requires IsHostText(t) && Trimmed(t, {'-'}) && |t| > MAX_LABEL
    ensures IsLabel(TrimRight(t[..MAX_LABEL], {'-'}))
  {
    var n := TrimRightTakes(t[..MAX_LABEL], {'-'});
    CutKeepsHead(t[..MAX_LABEL]);
  }

  lemma {:induction false} CutKeepsHead(s: string)
    requires s != [] && s[0] != '-'
    ensures TrimRight(s, {'-'}) != [] && TrimRight(s, {'-'})[0] == s[0]
  {
    if s[|s| - 1] == '-' { CutKeepsHead(s[..|s| - 1]); }
  }

  /** Exactly the labels are left alone, so sanitizing twice is sanitizing once. */
  lemma LabelFixesExactlyLabels(lower: char -> char, s: string)
    requires forall c | HostChar(c) :: lower(c) == c
    ensures Label(lower, s) == s <==> IsLabel(s)
    ensures Label(lower, Label(lower, s)) == Label(lower, s)
  {
    LabelIsLabel(lower, s);
    FixesLabel(lower, Label(lower, s));
    if IsLabel(s) { FixesLabel(lower, s); }
  }

  lemma FixesLabel(lower: char -> char, s: string)
    requires forall c | HostChar(c) :: lower(c) == c
    requires IsLabel(s)
    ensures Label(lower, s) == s
  {
    assert Mapped(lower, s) == s;
    ReplaceRunsFixes(s);
    TrimmedIsFixed(s, {'-'});
  }

  lemma {:induction false} ReplaceRunsKeepsAlphanumerics(s: string)
    requires forall i | 0 <= i < |s| :: !('A' <= s[i] <= 'Z')
    ensures Alphanumerics(ReplaceRuns(s)) == Alphanumerics(s)
    ensures |ReplaceRuns(s)| <= |s|
  {
    if s != [] {
      var t, c := s[..|s| - 1], s[|s| - 1];
      ReplaceRunsKeepsAlphanumerics(t);
      var u := ReplaceRuns(t);
      assert (u + [c])[..|u|] == u && (u + ['-'])[..|u|] == u;
    }
  }

  lemma TrimHyphensKeepsAlphanumerics(u: string)
    ensures Alphanumerics(Trim(u, {'-'})) == Alphanumerics(u)
    ensures IsHostText(u) ==> (Trim(u, {'-'}) == "" <==> Alphanumerics(u) == "")
  {
    TrimLeftKeepsAlphanumerics(u, {'-'});
    TrimRightKeepsAlphanumerics(TrimLeft(u, {'-'}), {'-'});
    var t := Trim(u, {'-'});
    if IsHostText(u) && t != "" {
      TrimIsHostText(u);
      AlphanumericsAppend([t[0]], t[1..]);
      assert t == [t[0]] + t[1..] && Alphanumerics([t[0]]) == [t[0]];
    }
  }

  lemma {:induction false} CutKeepsLeadingAlphanumerics(t: string, n: nat)
    requires n <= |t|
    ensures Alphanumerics(TrimRight(t[..n], {'-'})) <= Alphanumerics(t)
  {
    var m := TrimRightTakes(t[..n], {'-'});
    assert t[..n][..m] == t[..m];
    AlphanumericsOfPrefix(t, m);
  }

  lemma {:induction false} AlphanumericsOfPrefix(t: string, m: nat)
    requires m <= |t|
    ensures Alphanumerics(t[..m]) <= Alphanumerics(t)
  {
    if m == |t| {
      assert t[..m] == t;
    } else {
      assert t[..|t| - 1][..m] == t[..m];
      AlphanumericsOfPrefix(t[..|t| - 1], m);
    }
  }

  /** The letters and digits of a name survive in order, up to the length cut;
      only a name without any becomes the fallback. */
  lemma LabelKeepsAlphanumerics(lower: char -> char, s: string)
    requires forall c :: !('A' <= lower(c) <= 'Z')
    ensures Alphanumerics(Mapped(lower, s)) == "" ==> Label(lower, s) == "fleetnode"
    ensures Alphanumerics(Mapped(lower, s)) != "" ==>
              && Alphanumerics(Label(lower, s)) <= Alphanumerics(Mapped(lower, s))
              && (|s| <= MAX_LABEL ==> Alphanumerics(Label(lower, s)) == Alphanumerics(Mapped(lower, s)))
  {
    var m := Mapped(lower, s);
    var u := ReplaceRuns(m);
    ReplaceRunsKeepsAlphanumerics(m);
    ReplaceRunsIsHostText(m);
    TrimHyphensKeepsAlphanumerics(u);
    var i, j := TrimTakes(u, {'-'});
    if j - i > MAX_LABEL { CutKeepsLeadingAlphanumerics(Trim(u, {'-'}), MAX_LABEL); }
  }

  /** sanitizeName: always a host label; a label is kept as it is, and otherwise the
      letters and digits of the lower-cased name lead it, up to the length cut. */
  method SanitizeName(lower: char -> char, name: string) returns (s: string)
    ensures s == Label(lower, name) && IsLabel(s)
    ensures (forall c | HostChar(c) :: lower(c) == c) ==> (s == name <==> IsLabel(name))
    ensures (forall c :: !('A' <= lower(c) <= 'Z')) ==>
              var wanted := Alphanumerics(Mapped(lower, name));
              if wanted == "" then s == "fleetnode" else Alphanumerics(s) <= wanted
  {
    LabelIsLabel(lower, name);
    if forall c | HostChar(c) :: lower(c) == c { LabelFixesExactlyLabels(lower, name); }
    if forall c :: !('A' <= lower(c) <= 'Z') { LabelKeepsAlphanumerics(lower, name); }
    s := Mapped(lower, name);
    s := ReplaceRuns(s);
    s := Trim(s, {'-'});
    if s == "" {
      return "fleetnode";
    }
    if |s| > MAX_LABEL {
      s := TrimRight(s[..MAX_LABEL], {'-'});
    }
  }
}
