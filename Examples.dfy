/**
 The answers the detector gives on the representative inputs of the
 benchmark harness, derived from `ContainsExtglob` in `ExtglobSpec`.
 */
module ExtglobExamples {
  import opened ExtglobSpec

  /** Each of the five prefix characters followed by a parenthesised group
      is an extglob. */
  lemma PrefixGroupExamples(c: char)
    requires IsPrefixChar(c)
    ensures ContainsExtglob([c] + "(abc)")
  {
    var s := [c] + "(abc)";
    assert s[1] == '(' && s[5] == ')';
    assert Reachable(s, 0) && Triggers(s, 0);
  }

  /** An extglob inside a path, after plain characters, is found. */
  lemma PathExamples()
    ensures ContainsExtglob("xyz/?(abc)/xyz")
    ensures ContainsExtglob("xyz/@(abc|def)/xyz")
    ensures ContainsExtglob("xyz/!(abc)/xyz")
  {
    var s1 := "xyz/?(abc)/xyz";
    ReachableWithoutEscapes(s1, 4);
    assert s1[9] == ')' && Triggers(s1, 4);
    var s2 := "xyz/@(abc|def)/xyz";
    ReachableWithoutEscapes(s2, 4);
    assert s2[13] == ')' && Triggers(s2, 4);
    var s3 := "xyz/!(abc)/xyz";
    ReachableWithoutEscapes(s3, 4);
    assert s3[9] == ')' && Triggers(s3, 4);
  }

  /** Balance is not checked: the first prefix, `(` and any later `)` is
      enough. */
  lemma NestedExample()
    ensures ContainsExtglob("@(a|?(b))")
    ensures ContainsExtglob("@(a(b)")
  {
    var s1 := "@(a|?(b))";
    assert s1[7] == ')' && Reachable(s1, 0) && Triggers(s1, 0);
    var s2 := "@(a(b)";
    assert s2[5] == ')' && Reachable(s2, 0) && Triggers(s2, 0);
  }

  /** Strings without any prefix character are rejected by the pre-check:
      the empty string, single letters and plain paths. */
  lemma PlainExamples()
    ensures !ContainsExtglob("")
    ensures !ContainsExtglob("a")
    ensures !ContainsExtglob("simple.js")
    ensures !ContainsExtglob("abc/def/ghi.js")
    ensures !ContainsExtglob("[a-z].js")
    ensures !ContainsExtglob("path/to/file.txt")
    ensures !ContainsExtglob("no-extglob-here")
  {
    NoPrefixCharNoExtglob("");
    NoPrefixCharNoExtglob("a");
    NoPrefixCharNoExtglob("simple.js");
    NoPrefixCharNoExtglob("abc/def/ghi.js");
    NoPrefixCharNoExtglob("[a-z].js");
    NoPrefixCharNoExtglob("path/to/file.txt");
    NoPrefixCharNoExtglob("no-extglob-here");
  }

  /** Wildcards with no `(` after them, and a group that is never closed,
      are not extglobs. */
  lemma WildcardExamples()
    ensures !ContainsExtglob("*.js")
    ensures !ContainsExtglob("**/*.js")
    ensures !ContainsExtglob("?(abc")
  {
    NoParensNoExtglob("*.js");
    NoParensNoExtglob("**/*.js");
    NoParensNoExtglob("?(abc");
  }

  /** An escaped prefix character never opens an extglob. */
  lemma EscapedExample()
    ensures !ContainsExtglob("\\?(abc)")
  {
    assert "\\?(abc)" == ['\\', '?'] + "(abc)";
    EscapedPrefixIgnored('?', "(abc)");
    NoPrefixCharNoExtglob("(abc)");
  }
}
