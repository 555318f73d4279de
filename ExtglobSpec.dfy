/**
 The meaning of `isExtglob`, stated without loops.

 The detector scans a string left to right from position 0. On a backslash
 it skips two positions (the backslash and the character it escapes), on
 anything else one. A position the scan reaches "triggers" when it holds one
 of the extglob prefix characters `@ ? ! + *`, the next character is `(`,
 and some `)` occurs at or after the position two beyond it. The string
 contains an extglob iff some reached position triggers.
 */
module ExtglobSpec {

  /** The five characters that start an extglob group. */
  predicate IsPrefixChar(c: char) {
    c == '@' || c == '?' || c == '!' || c == '+' || c == '*'
  }

  /** True iff the string holds at least one extglob prefix character. */
  predicate HasPrefixChar(s: string) {
    exists k :: 0 <= k < |s| && IsPrefixChar(s[k])
  }

  /** Position `p` is visited by the scan: it is the start, or the scan
      stepped onto it by one from a plain character, or by two from a
      backslash. */
  predicate Reachable(s: string, p: nat)
    decreases p
  {
    || p == 0
    || (1 <= p && p - 1 < |s| && s[p - 1] != '\\' && Reachable(s, p - 1))
    || (2 <= p && p - 2 < |s| && s[p - 2] == '\\' && Reachable(s, p - 2))
  }

  /** Some `)` occurs at an index at or after `from`. */
  predicate HasCloseAfter(s: string, from: nat) {
    exists j :: from <= j < |s| && s[j] == ')'
  }

  /** The character at `p` opens an extglob: a prefix character, then `(`,
      then a `)` somewhere later (balance is not checked). */
  predicate Triggers(s: string, p: nat) {
    && p + 1 < |s|
    && IsPrefixChar(s[p])
    && s[p + 1] == '('
    && HasCloseAfter(s, p + 2)
  }

  /** The answer `isExtglob` gives for a string. */
  predicate ContainsExtglob(s: string) {
    exists p: nat :: p < |s| && Reachable(s, p) && Triggers(s, p)
  }

  /** The number of backslashes immediately before position `p`. */
  function BackslashRun(s: string, p: nat): (r: nat)
    requires p <= |s|
    ensures r <= p
    ensures forall k :: p - r <= k < p ==> s[k] == '\\'
    ensures r < p ==> s[p - r - 1] != '\\'
    decreases p
  {
    if p == 0 || s[p - 1] != '\\' then 0 else 1 + BackslashRun(s, p - 1)
  }

  /** The character right after a reached backslash is never visited, so it
      is never treated as a trigger. */
  lemma {:induction false} EscapedNotReached(s: string, p: nat)
    requires p < |s| && s[p] == '\\' && Reachable(s, p)
    ensures !Reachable(s, p + 1)
  {
    if Reachable(s, p + 1) {
      // p + 1 can only have been reached by a jump from a backslash at p - 1,
      // and then p itself was skipped.
      assert 1 <= p && s[p - 1] == '\\' && Reachable(s, p - 1);
      EscapedNotReached(s, p - 1);
      assert false;
    }
  }

  /** Every position up to the end is either visited or escaped by a
      visited backslash just before it. */
  lemma {:induction false} ReachedOrEscaped(s: string, p: nat)
    requires 1 <= p <= |s|
    ensures Reachable(s, p) || (Reachable(s, p - 1) && s[p - 1] == '\\')
  {
    if p >= 2 && !Reachable(s, p - 1) {
      ReachedOrEscaped(s, p - 1);
    }
  }

  /** A position is visited exactly when an even number of backslashes stand
      immediately before it: the usual reading of backslash escapes. */
  lemma {:induction false} ReachableIffEvenRun(s: string, p: nat)
    requires p <= |s|
    ensures Reachable(s, p) <==> BackslashRun(s, p) % 2 == 0
  {
    if p == 0 {
    } else if s[p - 1] != '\\' {
      ReachedOrEscaped(s, p);
    } else {
      ReachableIffEvenRun(s, p - 1);
      if Reachable(s, p - 1) {
        EscapedNotReached(s, p - 1);
      } else {
        ReachedOrEscaped(s, p - 1);
      }
    }
  }

  /** Without backslashes the scan visits every position. */
  lemma {:induction false} ReachableWithoutEscapes(s: string, p: nat)
    requires p <= |s|
    requires forall k :: 0 <= k < p ==> s[k] != '\\'
    ensures Reachable(s, p)
  {
    if p > 0 {
      ReachableWithoutEscapes(s, p - 1);
    }
  }

  /** The detector's answer in terms of escape parity alone: some prefix
      character preceded by an even run of backslashes opens an extglob. */
  lemma ContainsExtglobByParity(s: string)
    ensures ContainsExtglob(s) <==>
      exists p: nat :: p < |s| && BackslashRun(s, p) % 2 == 0 && Triggers(s, p)
  {
    forall p: nat | p < |s|
      ensures Reachable(s, p) <==> BackslashRun(s, p) % 2 == 0
    {
      ReachableIffEvenRun(s, p);
    }
  }

  /** Behind a leading backslash and the character it escapes, the scan
      visits the rest of the string exactly as it would on its own. */
  lemma {:induction false} EscapedPrefixShiftsScan(c: char, t: string, p: nat)
    ensures Reachable(['\\', c] + t, p + 2) <==> Reachable(t, p)
    decreases p
  {
    var s := ['\\', c] + t;
    EscapedNotReached(s, 0);
    if p >= 1 {
      EscapedPrefixShiftsScan(c, t, p - 1);
    }
    if p >= 2 {
      EscapedPrefixShiftsScan(c, t, p - 2);
    }
  }

  /** Escaping law: a backslash and the character it escapes contribute
      nothing, so an escaped prefix character never opens an extglob and the
      answer is that of the rest of the string. */
  lemma EscapedPrefixIgnored(c: char, t: string)
    ensures ContainsExtglob(['\\', c] + t) <==> ContainsExtglob(t)
  {
    var s := ['\\', c] + t;
    EscapedNotReached(s, 0);
    if ContainsExtglob(s) {
      var q: nat :| q < |s| && Reachable(s, q) && Triggers(s, q);
      assert q >= 2;
      EscapedPrefixShiftsScan(c, t, q - 2);
      var j :| q + 2 <= j < |s| && s[j] == ')';
      assert t[j - 2] == ')';
      assert Triggers(t, q - 2);
    }
    if ContainsExtglob(t) {
      var p: nat :| p < |t| && Reachable(t, p) && Triggers(t, p);
      EscapedPrefixShiftsScan(c, t, p);
      var j :| p + 2 <= j < |t| && t[j] == ')';
      assert s[j + 2] == ')';
      assert Triggers(s, p + 2);
    }
  }

  /** The fast-reject pre-check is sound: with no prefix character there is
      nothing to trigger. */
  lemma NoPrefixCharNoExtglob(s: string)
    requires !HasPrefixChar(s)
    ensures !ContainsExtglob(s)
  {
  }

  /** Without a `(` or without a `)` there is no extglob, whatever the
      prefix characters (so star-dot-js globs are rejected). */
  lemma NoParensNoExtglob(s: string)
    requires (forall k :: 0 <= k < |s| ==> s[k] != '(') || (forall k :: 0 <= k < |s| ==> s[k] != ')')
    ensures !ContainsExtglob(s)
  {
  }
}
