/**
  The settings-text rewrite of `create_folders`:
  `re.sub(pattern, "'DIRS': ['templates']", text)`, as a pure function on text.
 */
module DirsPatch {
  import opened Common
  import opened DirsPattern

  /** The text every occurrence of the pattern is replaced with. */
  const Replacement: string := "'DIRS': ['templates']"

  /**
    Scans `s` left to right: an occurrence starting at the current position is
    replaced and the scan resumes after it; otherwise one character is copied.
   */
  function PatchDirs(s: string): (r: string)
    decreases |s|
  {
    if |s| == 0 then ""
    else
      match MatchAt(s)
      case Some(n) => Replacement + PatchDirs(s[n..])
      case None => [s[0]] + PatchDirs(s[1..])
  }

  /** One step of the scan when an occurrence starts at the beginning. */
  lemma PatchStepHit(s: string, n: nat)
    requires MatchAt(s) == Some(n)
    ensures PatchDirs(s) == Replacement + PatchDirs(s[n..])
  {
  }

  /** One step of the scan when no occurrence starts at the beginning. */
  lemma PatchStepMiss(s: string)
    requires |s| > 0 && MatchAt(s).None?
    ensures PatchDirs(s) == [s[0]] + PatchDirs(s[1..])
  {
  }

  /** No occurrence starts at any of the first `i` positions of `s`. */
  predicate NoMatchBefore(s: string, i: nat)
    requires i <= |s|
    decreases i
  {
    i == 0 || (MatchAt(s).None? && NoMatchBefore(s[1..], i - 1))
  }

  /** `NoMatchBefore` is the position-by-position statement used by `Search`. */
  lemma {:induction false} NoMatchBeforeIff(s: string, i: nat)
    requires i <= |s|
    ensures NoMatchBefore(s, i) <==> forall j :: 0 <= j < i ==> MatchAt(s[j..]).None?
    decreases i
  {
    if i > 0 {
      NoMatchBeforeIff(s[1..], i - 1);
      assert s[0..] == s;
      assert forall j :: 1 <= j < i ==> s[1..][j - 1..] == s[j..];
    }
  }

  /** Everything before the first occurrence is free of occurrences. */
  lemma {:induction false} SearchClearsPrefix(s: string, i: nat)
    requires Search(s) == Some(i)
    ensures NoMatchBefore(s, i)
    decreases i
  {
    if i > 0 {
      SearchStep(s, i);
      SearchClearsPrefix(s[1..], i - 1);
    }
  }

  /** A text in which the pattern does not occur is free of occurrences throughout. */
  lemma {:induction false} MissClearsAll(s: string)
    requires !HasMatch(s)
    ensures NoMatchBefore(s, |s|)
    decreases |s|
  {
    if |s| > 0 {
      assert s[0..] == s;
      assert Search(s[1..]).None?;
      MissClearsAll(s[1..]);
    }
  }

  /**
    Where no occurrence starts among the first `i` positions, those `i`
    characters are copied to the output unchanged.
   */
  lemma {:induction false} PatchCopiesPrefix(s: string, i: nat)
    requires i <= |s| && NoMatchBefore(s, i)
    ensures PatchDirs(s) == s[..i] + PatchDirs(s[i..])
    decreases i
  {
    if i > 0 {
      PatchStepMiss(s);
      var t := s[1..];
      PatchCopiesPrefix(t, i - 1);
      assert t[i - 1..] == s[i..];
      assert s[..i] == [s[0]] + t[..i - 1];
    }
  }

  /** A text in which the pattern does not occur comes back unchanged. */
  lemma PatchIdentityOnMiss(s: string)
    requires !HasMatch(s)
    ensures PatchDirs(s) == s
  {
    MissClearsAll(s);
    PatchCopiesPrefix(s, |s|);
    assert s[|s|..] == "";
  }

  /**
    The first occurrence is replaced, the text before it is kept as it was,
    and the scan continues on the text after it.
   */
  lemma PatchLeftmost(s: string, i: nat, n: nat)
    requires Search(s) == Some(i)
    requires MatchAt(s[i..]) == Some(n)
    ensures PatchDirs(s) == s[..i] + Replacement + PatchDirs(s[i + n..])
  {
    SearchClearsPrefix(s, i);
    PatchCopiesPrefix(s, i);
    PatchStepHit(s[i..], n);
    assert s[i..][n..] == s[i + n..];
  }

  /**
    When the pattern occurs, the text before its first occurrence is kept, the
    reference to the `templates` folder appears where it started, and the
    result differs from the input (so the rewrite is never a silent no-op).
   */
  lemma PatchOnHit(s: string)
    requires HasMatch(s)
    ensures var i := Search(s).value;
      && |PatchDirs(s)| >= i + |Replacement|
      && PatchDirs(s)[..i] == s[..i]
      && PatchDirs(s)[i..i + |Replacement|] == Replacement
    ensures PatchDirs(s) != s
  {
    var i := Search(s).value;
    var n := MatchAt(s[i..]).value;
    MatchAtSound(s[i..]);
    PatchLeftmost(s, i, n);
    ReplacingChangesText(s, i, n, PatchDirs(s[i + n..]));
  }

  /**
    Splicing `Replacement` in place of an occurrence always changes the text:
    the occurrence has white space or `]` where `Replacement` has a quote.
   */
  lemma ReplacingChangesText(s: string, i: nat, n: nat, rest: string)
    requires i + n <= |s| && IsMatch(s[i..][..n])
    ensures var r := s[..i] + Replacement + rest;
      && |r| >= i + |Replacement|
      && r[..i] == s[..i]
      && r[i..i + |Replacement|] == Replacement
      && r != s
  {
    var r := s[..i] + Replacement + rest;
    var m := s[i..][..n];
    assert r[i + |Head|] == Replacement[|Head|] == '\'';
    assert s[i + |Head|] == m[|Head|];
    assert IsSpace(m[|Head|]) || m[|Head|] == Close;
  }

  /** The rewrite leaves the text unchanged exactly when the pattern does not occur. */
  lemma PatchIdentityIffNoMatch(s: string)
    ensures PatchDirs(s) == s <==> !HasMatch(s)
  {
    if HasMatch(s) {
      PatchOnHit(s);
    } else {
      PatchIdentityOnMiss(s);
    }
  }

  /** From position `i` on, `u` agrees with `Replacement` wherever both have a character. */
  predicate ReplacementCouldStartAt(u: string, i: int) {
    && 0 <= i < |u|
    && forall k :: 0 <= k < |Replacement| && i + k < |u| ==> u[i + k] == Replacement[k]
  }

  /** No position of `u` could be the start of an inserted `Replacement`. */
  predicate NoReplacementStart(u: string) {
    forall i :: 0 <= i < |u| ==> !ReplacementCouldStartAt(u, i)
  }

  /** When an occurrence starts the text, the output starts with `Replacement`. */
  lemma HitOutputStartsWithReplacement(t: string, u: string)
    requires MatchAt(t).Some?
    requires u <= PatchDirs(t) && |u| > 0
    ensures ReplacementCouldStartAt(u, 0)
  {
    PatchStepHit(t, MatchAt(t).value);
  }

  /**
    A prefix of the output that cannot contain the start of a replacement was
    copied from the input unchanged.
   */
  lemma {:induction false} CopiedPrefix(t: string, u: string)
    requires u <= PatchDirs(t)
    requires NoReplacementStart(u)
    ensures u <= t
    decreases |t|
  {
    if |t| > 0 && |u| > 0 {
      match MatchAt(t)
      case Some(n) =>
        HitOutputStartsWithReplacement(t, u);
        assert false;
      case None =>
        var u' := u[1..];
        assert forall i :: 0 <= i < |u'| ==> ReplacementCouldStartAt(u', i) ==> ReplacementCouldStartAt(u, i + 1);
        CopiedPrefix(t[1..], u');
        assert u == [t[0]] + u';
    }
  }

  /** After its first character, an occurrence holds no place where a replacement could start. */
  lemma MatchTailNoReplacementStart(m: string)
    requires IsMatch(m)
    ensures NoReplacementStart(m[1..])
  {
    var u := m[1..];
    assert m[..|Head|] == Head;
    forall i | 0 <= i < |u|
      ensures !ReplacementCouldStartAt(u, i)
    {
      assert Replacement[0] == '\'';
      if i + 1 < |Head| {
        assert u[i] == Head[i + 1];
        if i == 4 {
          assert u[i + 1] == Head[i + 2] == ':';
          assert Replacement[1] == 'D';
        } else {
          assert Head[i + 1] != '\'';
        }
      } else {
        assert u[i] == m[i + 1];
        assert IsSpace(m[i + 1]) || m[i + 1] == Close;
      }
    }
  }

  /** A text that departs from `Head` within its length has no occurrence at its start. */
  lemma NoMatchWhenHeadDiffers(v: string, k: nat)
    requires k < |Head| && k < |v| && v[k] != Head[k]
    ensures MatchAt(v).None?
  {
    MatchFailsBefore(v, 0, k);
  }

  /** A quote right after `Head` is neither white space nor `]`, so nothing matches there. */
  lemma NoMatchWhenQuoteAfterHead(v: string)
    requires |v| > |Head| && v[|Head|] == '\''
    ensures MatchAt(v).None?
  {
    MatchFailsBefore(v, 0, |Head|);
  }

  /** The only quotes in `Replacement` are at positions 0, 5, 9 and 19. */
  lemma ReplacementQuotes()
    ensures forall k :: 0 <= k < |Replacement| && Replacement[k] == Head[0] ==> k == 0 || k == 5 || k == 9 || k == 19
  {
  }

  /** No occurrence starts inside an inserted `Replacement`, whatever follows it. */
  lemma ReplacementHoldsNoMatch(rest: string)
    ensures forall j :: 0 <= j < |Replacement| ==> MatchAt((Replacement + rest)[j..]).None?
  {
    var t := Replacement + rest;
    ReplacementQuotes();
    forall j | 0 <= j < |Replacement|
      ensures MatchAt(t[j..]).None?
    {
      var v := t[j..];
      if j == 0 {
        assert v[|Head|] == Replacement[|Head|] == '\'';
        NoMatchWhenQuoteAfterHead(v);
      } else if j == 5 || j == 9 || j == 19 {
        assert v[1] == Replacement[j + 1] != Head[1];
        NoMatchWhenHeadDiffers(v, 1);
      } else {
        assert v[0] == Replacement[j] != Head[0];
        NoMatchWhenHeadDiffers(v, 0);
      }
    }
  }

  /** The pattern does not occur in the rewritten text. */
  lemma {:induction false} PatchLeavesNoMatch(s: string)
    ensures forall j :: 0 <= j < |PatchDirs(s)| ==> MatchAt(PatchDirs(s)[j..]).None?
    decreases |s|
  {
    if |s| > 0 {
      var r := PatchDirs(s);
      match MatchAt(s)
      case Some(n) =>
        var r' := PatchDirs(s[n..]);
        PatchLeavesNoMatch(s[n..]);
        ReplacementHoldsNoMatch(r');
        assert forall j :: |Replacement| <= j < |r| ==> r[j..] == r'[j - |Replacement|..];
      case None =>
        var r' := PatchDirs(s[1..]);
        PatchLeavesNoMatch(s[1..]);
        assert forall j :: 1 <= j < |r| ==> r[j..] == r'[j - 1..];
        if MatchAt(r).Some? {
          var l := MatchAt(r).value;
          var m := r[..l];
          MatchAtSound(r);
          MatchTailNoReplacementStart(m);
          assert m[1..] <= r';
          CopiedPrefix(s[1..], m[1..]);
          assert s[..l] == m;
          MatchAtExact(s, l);
          assert false;
        }
    }
  }

  /** Rewriting twice gives the same text as rewriting once. */
  lemma PatchIdempotent(s: string)
    ensures !HasMatch(PatchDirs(s))
    ensures PatchDirs(PatchDirs(s)) == PatchDirs(s)
  {
    PatchLeavesNoMatch(s);
    PatchIdentityOnMiss(PatchDirs(s));
  }

  /** The documented example: an empty, multi-line list becomes the `templates` list. */
  lemma PatchExample()
    ensures PatchDirs("'DIRS': [\n    ]") == "'DIRS': ['templates']"
  {
    var s := "'DIRS': [\n    ]";
    assert s[..|s|] == s && s[..|Head|] == Head;
    MatchAtExact(s, |s|);
    PatchStepHit(s, |s|);
    assert s[|s|..] == "";
  }
}
