/** The `match` pattern that the cashier schema puts on the email path,
    `^\w+([.-]?\w+)*@\w+([.-]?\w+)*(\.\w{2,3})+$` (a JavaScript regular
    expression without flags, so `\w` is `[A-Za-z0-9_]` and `$` is the end of
    the input). The pattern is written here as a grammar, one predicate per
    sub-expression, and then characterised by a direct description of the
    strings it accepts. */
module EmailPattern {

  /** `\w` */
  predicate IsWordChar(c: char)
  {
    'A' <= c <= 'Z' || 'a' <= c <= 'z' || '0' <= c <= '9' || c == '_'
  }

  /** `[.-]` */
  predicate IsSeparator(c: char)
  {
    c == '.' || c == '-'
  }

  /** `\w+([.-]?\w+)*`, as the right-recursive grammar
      C -> w | w C | w [.-] C, which generates the same strings. */
  predicate WordChain(s: string)
    decreases |s|
  {
    && |s| >= 1 && IsWordChar(s[0])
    && (|s| == 1 || WordChain(s[1..]) || (IsSeparator(s[1]) && WordChain(s[2..])))
  }

  /** `(\.\w{2,3})+`: one or more groups of a dot and two or three word
      characters. */
  predicate TopLevelGroups(t: string)
    decreases |t|
  {
    && |t| >= 3 && t[0] == '.' && IsWordChar(t[1]) && IsWordChar(t[2])
    && (|| |t| == 3
        || TopLevelGroups(t[3..])
        || (IsWordChar(t[3]) && (|t| == 4 || TopLevelGroups(t[4..]))))
  }

  /** `\w+([.-]?\w+)*(\.\w{2,3})+`: everything after the `@`. */
  predicate DomainPart(d: string)
  {
    exists i | 1 <= i < |d| :: WordChain(d[..i]) && TopLevelGroups(d[i..])
  }

  /** The whole anchored pattern. */
  predicate MatchesEmail(s: string)
  {
    exists i | 0 <= i < |s| :: s[i] == '@' && WordChain(s[..i]) && DomainPart(s[i + 1..])
  }

  // ---------------------------------------------------------------------
  // A direct description of the accepted strings
  // ---------------------------------------------------------------------

  /** Word characters and single separators, starting and ending with a word
      character. */
  predicate ChainShape(s: string)
  {
    && |s| >= 1 && IsWordChar(s[0]) && IsWordChar(s[|s| - 1])
    && (forall k | 0 <= k < |s| :: IsWordChar(s[k]) || IsSeparator(s[k]))
    && (forall k | 0 <= k < |s| - 1 :: IsSeparator(s[k]) ==> IsWordChar(s[k + 1]))
  }

  /** Ends in a dot and two or three word characters, with something before
      the dot. */
  predicate EndsWithTopLevelGroup(d: string)
  {
    || (|d| >= 4 && d[|d| - 3] == '.' && IsWordChar(d[|d| - 2]) && IsWordChar(d[|d| - 1]))
    || (&& |d| >= 5 && d[|d| - 4] == '.'
        && IsWordChar(d[|d| - 3]) && IsWordChar(d[|d| - 2]) && IsWordChar(d[|d| - 1]))
  }

  /** The strings the whole pattern accepts, described without the grammar. */
  predicate EmailShape(s: string)
  {
    exists i | 0 <= i < |s| ::
      && s[i] == '@' && ChainShape(s[..i])
      && ChainShape(s[i + 1..]) && EndsWithTopLevelGroup(s[i + 1..])
  }

  /** The grammar for `\w+([.-]?\w+)*` generates exactly the chain-shaped
      strings. */
  lemma {:induction false} WordChainShape(s: string)
    ensures WordChain(s) <==> ChainShape(s)
    decreases |s|
  {
    if |s| >= 2 {
      WordChainShape(s[1..]);
      WordChainShape(s[2..]);
      if WordChain(s) {
        if WordChain(s[1..]) {
          assert forall k | 1 <= k < |s| :: s[k] == s[1..][k - 1];
        } else {
          assert forall k | 2 <= k < |s| :: s[k] == s[2..][k - 2];
        }
      }
      if ChainShape(s) {
        if IsWordChar(s[1]) {
          assert forall k | 1 <= k < |s| :: s[k] == s[1..][k - 1];
          assert ChainShape(s[1..]);
        } else {
          assert forall k | 2 <= k < |s| :: s[k] == s[2..][k - 2];
          assert ChainShape(s[2..]);
        }
      }
    }
  }

  /** Two chains joined by one separator form a chain. */
  lemma ChainJoin(x: string, c: char, y: string)
    requires ChainShape(x) && IsSeparator(c) && ChainShape(y)
    ensures ChainShape(x + [c] + y)
  {
    var s := x + [c] + y;
    assert forall k | |x| < k < |s| :: s[k] == y[k - |x| - 1];
  }

  /** A chain cut at one of its separators gives two chains. */
  lemma ChainCut(s: string, i: nat)
    requires ChainShape(s) && 0 < i < |s| && IsSeparator(s[i])
    ensures ChainShape(s[..i]) && ChainShape(s[i + 1..])
  {
    assert forall k | i < k < |s| :: s[k] == s[i + 1..][k - i - 1];
  }

  /** A dot followed by two or three word characters at the very end. */
  predicate EndsWithGroup(t: string)
  {
    || (|t| >= 3 && t[|t| - 3] == '.' && IsWordChar(t[|t| - 2]) && IsWordChar(t[|t| - 1]))
    || (&& |t| >= 4 && t[|t| - 4] == '.'
        && IsWordChar(t[|t| - 3]) && IsWordChar(t[|t| - 2]) && IsWordChar(t[|t| - 1]))
  }

  /** A run of top-level groups is a dot followed by a chain. */
  lemma {:induction false} TopLevelGroupsChain(t: string)
    requires TopLevelGroups(t)
    ensures |t| >= 3 && t[0] == '.' && ChainShape(t[1..])
    decreases |t|
  {
    if |t| > 3 && TopLevelGroups(t[3..]) {
      TopLevelGroupsChain(t[3..]);
      assert t[3..][1..] == t[4..];
      ChainJoin(t[1..3], '.', t[4..]);
      assert t[1..] == t[1..3] + ['.'] + t[4..];
    } else if |t| > 4 && IsWordChar(t[3]) && TopLevelGroups(t[4..]) {
      TopLevelGroupsChain(t[4..]);
      assert t[4..][1..] == t[5..];
      ChainJoin(t[1..4], '.', t[5..]);
      assert t[1..] == t[1..4] + ['.'] + t[5..];
    }
  }

  /** A suffix of at least three characters ends the way the whole does. */
  lemma EndsWithGroupSuffix(t: string, n: nat)
    requires n + 3 <= |t| && EndsWithGroup(t[n..])
    ensures EndsWithGroup(t)
  {
    var u := t[n..];
    assert t[|t| - 1] == u[|u| - 1] && t[|t| - 2] == u[|u| - 2] && t[|t| - 3] == u[|u| - 3];
    assert |u| >= 4 ==> t[|t| - 4] == u[|u| - 4];
  }

  /** A run of top-level groups ends in one. */
  lemma {:induction false} TopLevelGroupsEnd(t: string)
    requires TopLevelGroups(t)
    ensures EndsWithGroup(t)
    decreases |t|
  {
    if |t| > 3 && TopLevelGroups(t[3..]) {
      TopLevelGroupsEnd(t[3..]);
      TopLevelGroupsChain(t[3..]);
      EndsWithGroupSuffix(t, 3);
    } else if |t| > 4 && IsWordChar(t[3]) && TopLevelGroups(t[4..]) {
      TopLevelGroupsEnd(t[4..]);
      TopLevelGroupsChain(t[4..]);
      EndsWithGroupSuffix(t, 4);
    }
  }

  lemma DomainPartHasShape(d: string, i: nat)
    requires 1 <= i < |d| && WordChain(d[..i]) && TopLevelGroups(d[i..])
    ensures ChainShape(d) && EndsWithTopLevelGroup(d)
  {
    var t := d[i..];
    WordChainShape(d[..i]);
    TopLevelGroupsChain(t);
    TopLevelGroupsEnd(t);
    ChainJoin(d[..i], '.', t[1..]);
    assert d == d[..i] + ['.'] + t[1..];
    EndsWithGroupSuffix(d, i);
  }

  lemma ShapeIsDomainPart(d: string)
    requires ChainShape(d) && EndsWithTopLevelGroup(d)
    ensures DomainPart(d)
  {
    var i := if d[|d| - 3] == '.' then |d| - 3 else |d| - 4;
    ChainCut(d, i);
    WordChainShape(d[..i]);
    assert TopLevelGroups(d[i..]);
  }

  /** The part after the `@` is accepted exactly when it is a chain ending in
      a top-level group. */
  lemma DomainPartShape(d: string)
    ensures DomainPart(d) <==> ChainShape(d) && EndsWithTopLevelGroup(d)
  {
    if DomainPart(d) {
      var i :| 1 <= i < |d| && WordChain(d[..i]) && TopLevelGroups(d[i..]);
      DomainPartHasShape(d, i);
    }
    if ChainShape(d) && EndsWithTopLevelGroup(d) {
      ShapeIsDomainPart(d);
    }
  }

  /** The grammar and the direct description accept the same strings. */
  lemma MatchesEmailShape(s: string)
    ensures MatchesEmail(s) <==> EmailShape(s)
  {
    forall i | 0 <= i < |s|
      ensures WordChain(s[..i]) <==> ChainShape(s[..i])
      ensures DomainPart(s[i + 1..]) <==> ChainShape(s[i + 1..]) && EndsWithTopLevelGroup(s[i + 1..])
    {
      WordChainShape(s[..i]);
      DomainPartShape(s[i + 1..]);
    }
  }

  /** A chain holds no `@`. */
  lemma ChainHasNoAt(s: string)
    requires ChainShape(s)
    ensures '@' !in s
  {
    forall k | 0 <= k < |s| ensures s[k] != '@' {
      assert IsWordChar(s[k]) || IsSeparator(s[k]);
    }
  }

  /** A top-level group at the end of the part after the `@` is one at the
      end of the whole address. */
  lemma EndsWithTopLevelGroupSuffix(s: string, i: nat)
    requires i < |s| && EndsWithTopLevelGroup(s[i..])
    ensures EndsWithTopLevelGroup(s)
  {
    var d := s[i..];
    assert s[|s| - 1] == d[|d| - 1] && s[|s| - 2] == d[|d| - 2] && s[|s| - 3] == d[|d| - 3];
    assert |d| >= 4 ==> s[|s| - 4] == d[|d| - 4];
  }

  /** A single `@` with none before and none after is the only one. */
  lemma SingleAt(s: string, i: nat)
    requires i < |s| && s[i] == '@' && '@' !in s[..i] && '@' !in s[i + 1..]
    ensures multiset(s)['@'] == 1
  {
    assert s == s[..i] + [s[i]] + s[i + 1..];
    assert multiset(s) == multiset(s[..i]) + multiset{'@'} + multiset(s[i + 1..]);
  }

  /** An accepted address holds exactly one `@` and ends in a dot followed by
      two or three word characters. */
  lemma MatchesEmailConsequences(s: string)
    requires MatchesEmail(s)
    ensures multiset(s)['@'] == 1
    ensures EndsWithTopLevelGroup(s)
  {
    MatchesEmailShape(s);
    var i :| && 0 <= i < |s| && s[i] == '@' && ChainShape(s[..i])
             && ChainShape(s[i + 1..]) && EndsWithTopLevelGroup(s[i + 1..]);
    ChainHasNoAt(s[..i]);
    ChainHasNoAt(s[i + 1..]);
    SingleAt(s, i);
    EndsWithTopLevelGroupSuffix(s, i + 1);
  }
}
