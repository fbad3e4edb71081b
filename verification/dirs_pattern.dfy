/**
  The regular expression `'DIRS': \[\s*\]` that `create_folders` looks for in a
  settings text: the literal `'DIRS': [`, any run of white space, then `]`.
  Only this one pattern is modelled, not regular expressions in general.
 */
module DirsPattern {
  import opened Common

  /** The literal part of the pattern before the white-space run. */
  const Head: string := "'DIRS': ["

  /** The character that closes an empty list. */
  const Close: char := ']'

  /** The class `\s`, read as the ASCII white-space characters. */
  predicate IsSpace(c: char) {
    c == ' ' || c == '\t' || c == '\n' || c == '\r' || c == '\U{B}' || c == '\U{C}'
  }

  /** `m` is, in full, one occurrence of the pattern. */
  predicate IsMatch(m: string) {
    && |m| > |Head|
    && m[..|Head|] == Head
    && m[|m| - 1] == Close
    && forall i :: |Head| <= i < |m| - 1 ==> IsSpace(m[i])
  }

  /**
    The matcher, `k` characters into an attempt that starts at the beginning of
    `t`: first the characters of `Head` one by one, then white space for as long
    as it lasts, then `]`. The result is the length of the occurrence.
   */
  function MatchFrom(t: string, k: nat): (r: Option<nat>)
    ensures r.Some? ==> k < r.value <= |t| && |Head| < r.value
    decreases |t| - k
  {
    if k >= |t| then None
    else if k < |Head| then
      if t[k] == Head[k] then MatchFrom(t, k + 1) else None
    else if IsSpace(t[k]) then MatchFrom(t, k + 1)
    else if t[k] == Close then Some(k + 1)
    else None
  }

  /**
    The regex engine's attempt at one position: the length of the occurrence
    that starts exactly at the beginning of `t`, if there is one.
   */
  function MatchAt(t: string): (r: Option<nat>)
    ensures r.Some? ==> |Head| < r.value <= |t|
  {
    MatchFrom(t, 0)
  }

  /** The first `k` characters of `t` are what the matcher has accepted so far. */
  predicate Consumed(t: string, k: nat) {
    && k <= |t|
    && (k <= |Head| ==> t[..k] == Head[..k])
    && (k > |Head| ==> t[..|Head|] == Head && forall i :: |Head| <= i < k ==> IsSpace(t[i]))
  }

  /** Whatever the matcher reports from a consistent state is an occurrence. */
  lemma {:induction false} MatchFromSound(t: string, k: nat)
    requires Consumed(t, k) && MatchFrom(t, k).Some?
    ensures IsMatch(t[..MatchFrom(t, k).value])
    decreases |t| - k
  {
    var n := MatchFrom(t, k).value;
    if k < |Head| || IsSpace(t[k]) {
      assert t[..k + 1] == t[..k] + [t[k]];
      if k < |Head| {
        assert Head[..k + 1] == Head[..k] + [Head[k]];
      } else if k == |Head| {
        assert t[..|Head|] == t[..k];
      } else {
        assert t[..|Head|] == t[..k][..|Head|];
      }
      MatchFromSound(t, k + 1);
    } else {
      var m := t[..n];
      if k == |Head| {
        assert m[..|Head|] == t[..k];
      } else {
        assert m[..|Head|] == t[..k][..|Head|];
      }
    }
  }

  /** From a consistent state the matcher finds any occurrence that is still ahead. */
  lemma {:induction false} MatchFromComplete(t: string, k: nat, n: nat)
    requires Consumed(t, k) && k < n <= |t| && IsMatch(t[..n])
    ensures MatchFrom(t, k) == Some(n)
    decreases |t| - k
  {
    var m := t[..n];
    if k < |Head| {
      assert t[k] == m[..|Head|][k];
      assert t[..k + 1] == t[..k] + [t[k]];
      assert Head[..k + 1] == Head[..k] + [Head[k]];
      MatchFromComplete(t, k + 1, n);
    } else if k < n - 1 {
      assert t[k] == m[k];
      if k == |Head| {
        assert t[..|Head|] == t[..k];
      } else {
        assert t[..|Head|] == t[..k][..|Head|];
      }
      MatchFromComplete(t, k + 1, n);
    } else {
      assert t[k] == m[n - 1];
    }
  }

  /** What an attempt at a position reports is an occurrence. */
  lemma MatchAtSound(t: string)
    requires MatchAt(t).Some?
    ensures IsMatch(t[..MatchAt(t).value])
  {
    MatchFromSound(t, 0);
  }

  /**
    An attempt at a position finds every occurrence that starts there, and
    there is never more than one: `]` is not white space, so backing off the
    greedy run never yields a second, shorter occurrence.
   */
  lemma MatchAtExact(t: string, n: nat)
    requires n <= |t| && IsMatch(t[..n])
    ensures MatchAt(t) == Some(n)
  {
    MatchFromComplete(t, 0, n);
  }

  /** Once the matcher has failed at step `k` of the head, it fails from every earlier step. */
  lemma {:induction false} MatchFailsBefore(v: string, j: nat, k: nat)
    requires j <= k <= |Head| && MatchFrom(v, k).None?
    ensures MatchFrom(v, j).None?
    decreases k - j
  {
    if j < k {
      MatchFailsBefore(v, j + 1, k);
    }
  }

  /**
    `re.search`: the first position of `s` at which an occurrence starts, or
    `None` when the pattern occurs nowhere in `s`.
   */
  function Search(s: string): (r: Option<nat>)
    ensures r.Some? ==> r.value < |s| && MatchAt(s[r.value..]).Some?
    ensures forall i {:trigger MatchAt(s[i..])} :: 0 <= i < |s| && (r.None? || i < r.value) ==> MatchAt(s[i..]).None?
  {
    if |s| == 0 then None
    else if MatchAt(s).Some? then Some(0)
    else
      match Search(s[1..])
      case None =>
        assert forall i :: 1 <= i < |s| ==> s[i..] == s[1..][i - 1..];
        None
      case Some(j) =>
        assert forall i :: 1 <= i < |s| ==> s[i..] == s[1..][i - 1..];
        assert s[j + 1..] == s[1..][j..];
        Some(j + 1)
  }

  /** A first occurrence that is not at the start is the first occurrence of the rest. */
  lemma SearchStep(s: string, i: nat)
    requires Search(s) == Some(i) && i > 0
    ensures MatchAt(s).None? && Search(s[1..]) == Some(i - 1)
  {
  }

  /** The pattern occurs somewhere in `s` (the test `re.search(pattern, s)`). */
  predicate HasMatch(s: string) {
    Search(s).Some?
  }
}
