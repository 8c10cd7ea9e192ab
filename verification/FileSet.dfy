/** Turning declared model files into an ordered, duplicate-free staging plan. */
module FileSet {
  import opened Common

  /** path.Match: whether the name matches, or None for a malformed pattern. */
  type Glob = (string, string) -> Option<bool>

  /** A repository listing; None is the nil slice of a source that has none. */
  type Listing = Option<seq<string>>

  datatype Outcome = NoPlan | Rejected | Plan(primary: string, files: seq<string>, mmproj: string)

  // ---- patterns -------------------------------------------------------------

  predicate HasDotDot(p: string) {
    exists i | 0 <= i < |p| - 1 :: p[i] == '.' && p[i + 1] == '.'
  }

  /** validateRepoRelativePath. */
  predicate ValidPath(p: string) {
    p != "" && p[0] != '/' && !HasDotDot(p)
  }

  predicate HasGlob(p: string) {
    '*' in p || '?' in p || '[' in p
  }

  predicate Missing(listing: Listing, name: string) {
    listing.Some? && listing.value != [] && name !in listing.value
  }

  /** The matching names of a listing in order, None when the pattern is malformed. */
  function Matches(pattern: string, names: seq<string>, glob: Glob): (r: Option<seq<string>>) {
    if names == [] then Some([])
    else
      var init, last := Matches(pattern, names[..|names| - 1], glob), names[|names| - 1];
      if init.None? || glob(pattern, last).None? then None
      else if glob(pattern, last).value then Some(init.value + [last])
      else init
  }

  /** expandFilePattern. */
  function Expand(entry: string, listing: Listing, glob: Glob): (r: Option<seq<string>>) {
    if !ValidPath(entry) then None
    else if !HasGlob(entry) then if Missing(listing, entry) then None else Some([entry])
    else if listing.None? then None
    else Matches(entry, listing.value, glob)
  }

  /** A usable path: not empty, not absolute, without two dots in a row anywhere. */
  ghost predicate Usable(p: string) {
    p != "" && !(exists rest :: p == "/" + rest) && !(exists a, b :: p == a + ".." + b)
  }

  lemma ValidPathIff(p: string)
    ensures ValidPath(p) <==> Usable(p)
  {
    if p != "" && p[0] == '/' { assert p == "/" + p[1..]; }
    if HasDotDot(p) {
      var i :| 0 <= i < |p| - 1 && p[i] == '.' && p[i + 1] == '.';
      assert p == p[..i] + ".." + p[i + 2..];
    }
    if a, b :| p == a + ".." + b {
      assert p[|a|] == '.' && p[|a| + 1] == '.';
    }
  }

  /** What one entry expands to, and when it is rejected. A plain name stands for
      itself unless a non-empty listing lacks it; a name with a wildcard needs a
      listing, empty or not, and a pattern that is well-formed on all of it. */
  lemma ExpandIff(entry: string, listing: Listing, glob: Glob)
    ensures var wild := '*' in entry || '?' in entry || '[' in entry;
            var r := Expand(entry, listing, glob);
            && (!Usable(entry) ==> r == None)
            && (Usable(entry) && !wild ==>
                  r == if listing == None || listing == Some([]) || entry in listing.value then Some([entry]) else None)
            && (Usable(entry) && wild ==>
                  (r.Some? <==> listing.Some? && forall c | c in listing.value :: glob(entry, c).Some?))
  {
    ValidPathIff(entry);
    if listing.Some? { MatchesIff(entry, listing.value, glob); }
  }

  lemma {:induction false} MatchesIff(pattern: string, names: seq<string>, glob: Glob)
    ensures Matches(pattern, names, glob).Some? <==> forall c | c in names :: glob(pattern, c).Some?
  {
    if names != [] {
      MatchesIff(pattern, names[..|names| - 1], glob);
      assert names == names[..|names| - 1] + [names[|names| - 1]];
    }
  }

  /** The projector is optional; a given one is a usable plain name that a non-empty
      listing has. */
  lemma MmprojAllowedIff(mmproj: string, listing: Listing)
    ensures MmprojAllowed(mmproj, listing) <==>
            || mmproj == ""
            || (&& Usable(mmproj) && '*' !in mmproj && '?' !in mmproj && '[' !in mmproj
                && (listing == None || listing == Some([]) || mmproj in listing.value))
  {
    ValidPathIff(mmproj);
  }

  lemma {:induction false} BadPatternSpoilsAll(pattern: string, names: seq<string>, glob: Glob, i: nat)
    requires i < |names| && glob(pattern, names[i]).None?
    ensures Matches(pattern, names, glob).None?
  {
    if i < |names| - 1 { BadPatternSpoilsAll(pattern, names[..|names| - 1], glob, i); }
  }

  method MatchListing(pattern: string, names: seq<string>, glob: Glob) returns (r: Option<seq<string>>)
    ensures r == Matches(pattern, names, glob)
  {
    var matches: seq<string> := [];
    for i := 0 to |names|
      invariant Matches(pattern, names[..i], glob) == Some(matches)
    {
      assert names[..i + 1][..i] == names[..i];
      var matched := glob(pattern, names[i]);
      if matched.None? {
        BadPatternSpoilsAll(pattern, names, glob, i);
        return None;
      }
      if matched.value {
        matches := matches + [names[i]];
      }
    }
    assert names[..|names|] == names;
    return Some(matches);
  }

  method ExpandFilePattern(entry: string, listing: Listing, glob: Glob) returns (r: Option<seq<string>>)
    ensures r == Expand(entry, listing, glob)
  {
    if !ValidPath(entry) {
      return None;
    }
    if !HasGlob(entry) {
      if Missing(listing, entry) {
        return None;
      }
      return Some([entry]);
    }
    if listing.None? {
      return None;
    }
    r := MatchListing(entry, listing.value, glob);
  }

  // ---- the plan -------------------------------------------------------------

  /** All expansions one after another, None when one of them is rejected. */
  function ExpandAll(files: seq<string>, listing: Listing, glob: Glob): (r: Option<seq<string>>) {
    if files == [] then Some([])
    else
      var init := ExpandAll(files[..|files| - 1], listing, glob);
      var last := Expand(files[|files| - 1], listing, glob);
      if init.None? || last.None? then None else Some(init.value + last.value)
  }

  /** Each value at its first appearance only. */
  function Dedup(s: seq<string>): (r: seq<string>) {
    if s == [] then []
    else
      var init := Dedup(s[..|s| - 1]);
      if s[|s| - 1] in init then init else init + [s[|s| - 1]]
  }

  predicate MmprojAllowed(mmproj: string, listing: Listing) {
    mmproj == "" || (ValidPath(mmproj) && !HasGlob(mmproj) && !Missing(listing, mmproj))
  }

  function MmprojFiles(mmproj: string): (r: seq<string>) {
    if mmproj == "" then [] else [mmproj]
  }

  function PlanOf(files: seq<string>, mmproj: string, listing: Listing, glob: Glob): (r: Outcome) {
    if files == [] then if mmproj == "" then NoPlan else Rejected
    else
      var primary, all := Expand(files[0], listing, glob), ExpandAll(files, listing, glob);
      if primary.None? || |primary.value| != 1 || all.None? || !MmprojAllowed(mmproj, listing) then Rejected
      else Plan(primary.value[0], Dedup(all.value + MmprojFiles(mmproj)), mmproj)
  }

  lemma {:induction false} RejectedEntrySpoilsAll(files: seq<string>, listing: Listing, glob: Glob, i: nat)
    requires i < |files| && Expand(files[i], listing, glob).None?
    ensures ExpandAll(files, listing, glob).None?
  {
    if i < |files| - 1 { RejectedEntrySpoilsAll(files[..|files| - 1], listing, glob, i); }
  }

  method AppendNew(sofar: seq<string>, resolved0: seq<string>, more: seq<string>) returns (resolved: seq<string>)
    requires resolved0 == Dedup(sofar)
    ensures resolved == Dedup(sofar + more)
  {
    resolved := resolved0;
    assert sofar + more[..0] == sofar;
    for k := 0 to |more|
      invariant resolved == Dedup(sofar + more[..k])
    {
      assert (sofar + more[..k + 1])[..|sofar| + k] == sofar + more[..k];
      if more[k] in resolved {
        continue;
      }
      resolved := resolved + [more[k]];
    }
    assert more[..|more|] == more;
  }

  /** ResolveFileSet. */
  method ResolveFileSet(files: seq<string>, mmproj: string, listing: Listing, glob: Glob) returns (plan: Outcome)
    ensures plan == PlanOf(files, mmproj, listing, glob)
  {
    if |files| == 0 {
      return if mmproj == "" then NoPlan else Rejected;
    }
    var primary := ExpandFilePattern(files[0], listing, glob);
    if primary.None? || |primary.value| != 1 {
      return Rejected;
    }
    var resolved: seq<string>, all: seq<string> := [], [];
    for i := 0 to |files|
      invariant ExpandAll(files[..i], listing, glob) == Some(all)
      invariant resolved == Dedup(all)
    {
      assert files[..i + 1][..i] == files[..i];
      var matches := ExpandFilePattern(files[i], listing, glob);
      if matches.None? {
        RejectedEntrySpoilsAll(files, listing, glob, i);
        return Rejected;
      }
      resolved := AppendNew(all, resolved, matches.value);
      all := all + matches.value;
    }
    assert files[..|files|] == files;
    if mmproj != "" {
      if !ValidPath(mmproj) || HasGlob(mmproj) || Missing(listing, mmproj) {
        return Rejected;
      }
    }
    resolved := AppendNew(all, resolved, MmprojFiles(mmproj));
    return Plan(primary.value[0], resolved, mmproj);
  }

  // ---- what a plan guarantees -----------------------------------------------

  lemma {:induction false} DedupMembers(s: seq<string>, x: string)
    ensures x in Dedup(s) <==> x in s
  {
    if s != [] {
      DedupMembers(s[..|s| - 1], x);
      assert s == s[..|s| - 1] + [s[|s| - 1]];
    }
  }

  /** The kept positions: increasing, and each one a first appearance. */
  lemma {:induction false} DedupInOrder(s: seq<string>) returns (at: seq<nat>)
    ensures |at| == |Dedup(s)|
    ensures forall i | 0 <= i < |at| :: at[i] < |s| && Dedup(s)[i] == s[at[i]] && s[at[i]] !in s[..at[i]]
    ensures forall i, j | 0 <= i < j < |at| :: at[i] < at[j]
  {
    if s == [] {
      at := [];
    } else {
      var n := |s| - 1;
      at := DedupInOrder(s[..n]);
      forall i | 0 <= i < |at| ensures at[i] < |s| && Dedup(s)[i] == s[at[i]] && s[at[i]] !in s[..at[i]] {
        assert s[..n][..at[i]] == s[..at[i]];
      }
      DedupMembers(s[..n], s[n]);
      if s[n] !in Dedup(s[..n]) {
        at := at + [n];
      }
    }
  }

  lemma DedupDistinct(s: seq<string>)
    ensures forall i, j | 0 <= i < j < |Dedup(s)| :: Dedup(s)[i] != Dedup(s)[j]
  {
    var at := DedupInOrder(s);
    forall i, j | 0 <= i < j < |Dedup(s)| ensures Dedup(s)[i] != Dedup(s)[j] {
      assert s[..at[j]][at[i]] == s[at[i]];
    }
  }

  lemma {:induction false} ExpandAllMembers(files: seq<string>, listing: Listing, glob: Glob, x: string)
    requires ExpandAll(files, listing, glob).Some?
    ensures x in ExpandAll(files, listing, glob).value <==>
            exists f :: f in files && Expand(f, listing, glob).Some? && x in Expand(f, listing, glob).value
  {
    if files != [] {
      var init, last := files[..|files| - 1], files[|files| - 1];
      ExpandAllMembers(init, listing, glob, x);
      assert files == init + [last];
    }
  }

  lemma {:induction false} ExpandAllStarts(files: seq<string>, listing: Listing, glob: Glob)
    requires files != [] && ExpandAll(files, listing, glob).Some?
    requires Expand(files[0], listing, glob).Some? && Expand(files[0], listing, glob).value != []
    ensures ExpandAll(files, listing, glob).value != []
    ensures ExpandAll(files, listing, glob).value[0] == Expand(files[0], listing, glob).value[0]
  {
    var n := |files| - 1;
    if n == 0 {
      assert files[..0] == [];
      assert [] + Expand(files[0], listing, glob).value == Expand(files[0], listing, glob).value;
    } else {
      ExpandAllStarts(files[..n], listing, glob);
    }
  }

  lemma {:induction false} DedupKeepsHead(s: seq<string>)
    requires s != []
    ensures Dedup(s) != [] && Dedup(s)[0] == s[0]
  {
    if |s| > 1 { DedupKeepsHead(s[..|s| - 1]); } else { assert s[..0] == []; }
  }

  /** Every plan lists no file twice, starts with the primary, and holds exactly the
      files some declared pattern expands to, plus the projector. */
  lemma PlanHoldsExactlyTheExpansions(files: seq<string>, mmproj: string, listing: Listing, glob: Glob)
    requires PlanOf(files, mmproj, listing, glob).Plan?
    ensures var plan := PlanOf(files, mmproj, listing, glob);
            && (forall i, j | 0 <= i < j < |plan.files| :: plan.files[i] != plan.files[j])
            && plan.files != [] && plan.files[0] == plan.primary
            && Expand(files[0], listing, glob) == Some([plan.primary])
            && (forall x :: x in plan.files <==>
                  || (mmproj != "" && x == mmproj)
                  || exists f :: f in files && Expand(f, listing, glob).Some? && x in Expand(f, listing, glob).value)
  {
    var all := ExpandAll(files, listing, glob).value;
    var whole := all + MmprojFiles(mmproj);
    var first := Expand(files[0], listing, glob).value;
    assert first == [first[0]];
    DedupDistinct(whole);
    ExpandAllStarts(files, listing, glob);
    DedupKeepsHead(whole);
    forall x ensures x in Dedup(whole) <==>
                       || (mmproj != "" && x == mmproj)
                       || exists f :: f in files && Expand(f, listing, glob).Some? && x in Expand(f, listing, glob).value
    {
      DedupMembers(whole, x);
      ExpandAllMembers(files, listing, glob, x);
    }
  }

  lemma {:induction false} MatchesAreListed(pattern: string, names: seq<string>, glob: Glob, x: string)
    requires Matches(pattern, names, glob).Some?
    ensures x in Matches(pattern, names, glob).value <==> x in names && glob(pattern, x) == Some(true)
  {
    if names != [] {
      MatchesAreListed(pattern, names[..|names| - 1], glob, x);
      assert names == names[..|names| - 1] + [names[|names| - 1]];
    }
  }

  /** With a non-empty listing, every staged file is in it. */
  lemma PlanStaysInListing(files: seq<string>, mmproj: string, listing: Listing, glob: Glob, x: string)
    requires PlanOf(files, mmproj, listing, glob).Plan? && x in PlanOf(files, mmproj, listing, glob).files
    requires listing.Some? && listing.value != []
    ensures x in listing.value
  {
    PlanHoldsExactlyTheExpansions(files, mmproj, listing, glob);
    if !(mmproj != "" && x == mmproj) {
      var f :| f in files && Expand(f, listing, glob).Some? && x in Expand(f, listing, glob).value;
      if HasGlob(f) { MatchesAreListed(f, listing.value, glob, x); }
    }
  }

  /** A declared file list is planned exactly when its first pattern means one file,
      no pattern is rejected and the projector, if any, is allowed. */
  lemma {:induction false} PlannedIff(files: seq<string>, mmproj: string, listing: Listing, glob: Glob)
    ensures PlanOf(files, mmproj, listing, glob).Plan? <==>
            && files != []
            && (forall f | f in files :: Expand(f, listing, glob).Some?)
            && |Expand(files[0], listing, glob).value| == 1
            && MmprojAllowed(mmproj, listing)
  {
    if files != [] {
      ExpandAllIff(files, listing, glob);
      assert files[0] in files;
    }
  }

  lemma {:induction false} ExpandAllIff(files: seq<string>, listing: Listing, glob: Glob)
    ensures ExpandAll(files, listing, glob).Some? <==> forall f | f in files :: Expand(f, listing, glob).Some?
  {
    if files != [] {
      ExpandAllIff(files[..|files| - 1], listing, glob);
      assert files == files[..|files| - 1] + [files[|files| - 1]];
    }
  }
}
