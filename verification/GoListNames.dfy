/** The node names go list -test prints and the package each one stands for. */
module GoListNames {
  import opened Common

  /** strings.Index: the first occurrence, or -1. */
  function IndexOf(s: string, sub: string): (r: int)
    ensures -1 <= r <= |s|
  {
    if |s| < |sub| then -1
    else if s[..|sub|] == sub then 0
    else if s == "" then -1
    else
      var rest := IndexOf(s[1..], sub);
      if rest < 0 then -1 else rest + 1
  }

  const VARIANT: string := " ["

  /** testablePackage: the package go test accepts for a go list -test node. */
  function TestablePackage(p: string): (r: string) {
    var i := IndexOf(p, VARIANT);
    var plain := if i >= 0 then p[..i] else p;
    var isMain := HasSuffix(plain, ".test");
    var name := if isMain then TrimSuffix(plain, ".test") else plain;
    if (i >= 0 || isMain) && HasSuffix(name, "_test") then TrimSuffix(name, "_test") else name
  }

  lemma {:induction false} IndexOfVariant(p: string, tail: string)
    requires IndexOf(p, VARIANT) == -1
    ensures IndexOf(p + VARIANT + tail, VARIANT) == |p|
  {
    var s := p + VARIANT + tail;
    if p == "" {
      assert s[..2] == VARIANT;
    } else {
      assert s[1..] == p[1..] + VARIANT + tail;
      assert s[..2] != VARIANT by {
        if |p| == 1 { assert s[1] == ' '; } else { assert s[..2] == p[..2]; }
      }
      IndexOfVariant(p[1..], tail);
    }
  }

  /** A suffix without a bracket starts no variant marker. */
  lemma {:induction false} NoVariantAppended(p: string, suffix: string)
    requires IndexOf(p, VARIANT) == -1 && '[' !in suffix
    ensures IndexOf(p + suffix, VARIANT) == -1
    decreases |p| + |suffix|
  {
    var s := p + suffix;
    if |s| >= 2 {
      if p == "" {
        assert s[1] == suffix[1] && s[1..] == "" + suffix[1..];
        NoVariantAppended("", suffix[1..]);
      } else {
        assert s[1..] == p[1..] + suffix;
        NoVariantAppended(p[1..], suffix);
        if |p| >= 2 { assert s[..2] == p[..2]; } else { assert s[1] == suffix[0]; }
      }
    }
  }

  lemma SuffixAppended(s: string, suffix: string)
    ensures HasSuffix(s + suffix, suffix) && TrimSuffix(s + suffix, suffix) == s
  {
  }

  /** A name that is neither a variant nor a test main stands for itself, whatever it
      ends in. */
  lemma PlainNameIsKept(pkg: string)
    requires IndexOf(pkg, VARIANT) == -1 && !HasSuffix(pkg, ".test")
    ensures TestablePackage(pkg) == pkg
  {
  }

  lemma VariantReduces(pkg: string, tail: string)
    requires IndexOf(pkg, VARIANT) == -1
    ensures TestablePackage(pkg + VARIANT + tail) == pkg <==> !HasSuffix(pkg, ".test") && !HasSuffix(pkg, "_test")
  {
    IndexOfVariant(pkg, tail);
    assert (pkg + VARIANT + tail)[..|pkg|] == pkg;
  }

  lemma ExternalTestReduces(pkg: string, tail: string)
    requires IndexOf(pkg + "_test", VARIANT) == -1
    ensures TestablePackage(pkg + "_test" + VARIANT + tail) == pkg
  {
    var p := pkg + "_test";
    IndexOfVariant(p, tail);
    assert (p + VARIANT + tail)[..|p|] == p;
    SuffixAppended(pkg, "_test");
    assert !HasSuffix(p, ".test") by { assert p[|p| - 5] == '_'; }
  }

  lemma MainReduces(pkg: string)
    requires IndexOf(pkg + ".test", VARIANT) == -1
    ensures TestablePackage(pkg + ".test") == pkg <==> !HasSuffix(pkg, "_test")
  {
    SuffixAppended(pkg, ".test");
  }

  /** The node names go list -test prints for a package (itself, its in-package
      variant, its external test package and its test main) all reduce back to it
      exactly when its own name does not end in a test suffix; a package directory
      called x_test loses its test nodes to x. */
  lemma NodeNamesReduceIff(pkg: string, tail: string)
    requires IndexOf(pkg, VARIANT) == -1
    ensures (&& TestablePackage(pkg) == pkg
             && TestablePackage(pkg + VARIANT + tail) == pkg
             && TestablePackage(pkg + "_test" + VARIANT + tail) == pkg
             && TestablePackage(pkg + ".test") == pkg)
            <==> !HasSuffix(pkg, ".test") && !HasSuffix(pkg, "_test")
  {
    NoVariantAppended(pkg, "_test");
    NoVariantAppended(pkg, ".test");
    VariantReduces(pkg, tail);
    ExternalTestReduces(pkg, tail);
    MainReduces(pkg);
  }

  /** A package called x_test, for any x: its test main and its in-package variant
      both reduce to x. */
  lemma TestNodesOfTestNamedPackage(x: string, tail: string)
    requires IndexOf(x, VARIANT) == -1
    ensures TestablePackage(x + "_test" + ".test") == x
    ensures TestablePackage(x + "_test" + VARIANT + tail) == x
  {
    var pkg := x + "_test";
    NoVariantAppended(x, "_test");
    NoVariantAppended(pkg, ".test");
    SuffixAppended(pkg, ".test");
    SuffixAppended(x, "_test");
    ExternalTestReduces(x, tail);
  }
}
