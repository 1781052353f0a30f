/** The regular expression `/^(.+?)\s+by\s+(.+)$/i` of `parseByFormat` in
    src/bulkParser.ts, with JavaScript's backtracking order written out.

    Group 1 is lazy, so the leftmost end of the title that admits a match is
    taken. `\s+` before `by` is greedy, but `by` cannot start inside a
    whitespace run, so it must start where the run ends. `\s+` after `by`
    is greedy too: group 2 starts where that run ends, unless the run
    reaches the end of the line, in which case one whitespace character is
    handed back to group 2. `.` does not match a line terminator, and with
    neither the `m` nor the `s` flag `^` and `$` anchor the whole string. */
module ByPattern {
  import opened Seqs
  import opened Strings

  predicate NoLineTerminator(s: string)
  {
    forall k :: 0 <= k < |s| ==> !IsLineTerminator(s[k])
  }

  /** `by` under the `i` flag, at index `p`. */
  predicate IsBy(s: string, p: int)
  {
    0 <= p && p + 2 <= |s| && (s[p] == 'b' || s[p] == 'B') && (s[p + 1] == 'y' || s[p + 1] == 'Y')
  }

  /** The pattern matches `s` with group 1 = `s[..g1]`, `by` at `p` and group 2 = `s[g2..]`. */
  predicate MatchesAt(s: string, g1: int, p: int, g2: int)
  {
    && 1 <= g1 < p && p + 2 < g2 < |s|
    && NoLineTerminator(s[..g1])
    && AllWhitespace(s[g1..p]) && IsBy(s, p) && AllWhitespace(s[p + 2..g2])
    && NoLineTerminator(s[g2..])
  }

  /** Some way of matching `s` has group 1 = `s[..g1]` and group 2 = `s[g2..]`. */
  ghost predicate Matches(s: string, g1: int, g2: int)
  {
    exists p :: MatchesAt(s, g1, p, g2)
  }

  /** The end of the whitespace run starting at `i`. */
  function WsRunEnd(s: string, i: nat): (e: nat)
    requires i <= |s|
    ensures i <= e <= |s| && AllWhitespace(s[i..e]) && (e < |s| ==> !IsWhitespace(s[e]))
    decreases |s| - i
  {
    if i < |s| && IsWhitespace(s[i]) then
      var e := WsRunEnd(s, i + 1);
      e
    else i
  }

  /** A whitespace stretch from `i` never goes past the run's end. */
  lemma {:induction false} RunBound(s: string, i: nat, j: nat)
    requires i <= j <= |s| && AllWhitespace(s[i..j])
    ensures j <= WsRunEnd(s, i)
    decreases j - i
  {
    if i < j {
      assert s[i..j][0] == s[i];
      assert AllWhitespace(s[i + 1..j]);
      RunBound(s, i + 1, j);
    }
  }

  /** A whitespace stretch ended by a non-whitespace character is the run. */
  lemma {:induction false} RunEndAt(s: string, i: nat, j: nat)
    requires i <= j < |s| && AllWhitespace(s[i..j]) && !IsWhitespace(s[j])
    ensures WsRunEnd(s, i) == j
    decreases j - i
  {
    if i < j {
      assert s[i..j][0] == s[i];
      assert AllWhitespace(s[i + 1..j]);
      RunEndAt(s, i + 1, j);
    }
  }

  /** The backtracking for a fixed end `g1` of group 1: where group 2 starts, if anywhere. */
  function MatchStart(s: string, g1: nat): Option<nat>
    requires 1 <= g1 <= |s|
  {
    if !NoLineTerminator(s[..g1]) then None
    else
      var p := WsRunEnd(s, g1);
      if p == g1 || !IsBy(s, p) then None
      else
        var f := WsRunEnd(s, p + 2);
        if f == p + 2 then None
        else if f < |s| then (if NoLineTerminator(s[f..]) then Some(f) else None)
        else if f - 1 > p + 2 && !IsLineTerminator(s[|s| - 1]) then Some(|s| - 1)
        else None
  }

  /** What `MatchStart` finds is a match. */
  lemma MatchStartSound(s: string, g1: nat)
    requires 1 <= g1 <= |s| && MatchStart(s, g1).Some?
    ensures Matches(s, g1, MatchStart(s, g1).value)
  {
    var p := WsRunEnd(s, g1);
    var f := WsRunEnd(s, p + 2);
    if f < |s| {
      assert MatchesAt(s, g1, p, f);
    } else {
      var g2 := |s| - 1;
      assert s[p + 2..g2] == s[p + 2..f][..g2 - (p + 2)];
      assert AllWhitespace(s[p + 2..g2]);
      assert MatchesAt(s, g1, p, g2);
    }
  }

  /** `MatchStart` finds every match with that group 1, and the latest
      possible start of group 2 (the greedy `\s+`). */
  lemma MatchStartComplete(s: string, g1: nat, p: int, g2: int)
    requires MatchesAt(s, g1, p, g2)
    ensures MatchStart(s, g1).Some? && g2 <= MatchStart(s, g1).value
  {
    RunEndAt(s, g1, p);
    RunBound(s, p + 2, g2);
    var f := WsRunEnd(s, p + 2);
    if f < |s| {
      assert forall k :: 0 <= k < |s| - f ==> s[f..][k] == s[f + k];
    } else {
      assert s[|s| - 1] == s[g2..][|s| - 1 - g2];
    }
  }

  /** Trying the ends of group 1 from `g1` on, shortest first (the lazy `.+?`). */
  function FirstMatch(s: string, g1: nat): Option<(nat, nat)>
    requires 1 <= g1
    decreases |s| - g1
  {
    if g1 >= |s| then None
    else match MatchStart(s, g1)
      case Some(g2) => Some((g1, g2))
      case None => FirstMatch(s, g1 + 1)
  }

  /** `line.match(/^(.+?)\s+by\s+(.+)$/i)`: the ends of group 1 and the start of group 2. */
  function ByMatch(s: string): (m: Option<(nat, nat)>)
    ensures m.Some? ==> 1 <= m.value.0 < m.value.1 < |s|
  {
    if FirstMatch(s, 1).Some? then FirstMatchSound(s, 1); FirstMatch(s, 1) else None
  }

  lemma {:induction false} FirstMatchSound(s: string, g1: nat)
    requires 1 <= g1 && FirstMatch(s, g1).Some?
    ensures g1 <= FirstMatch(s, g1).value.0 && Matches(s, FirstMatch(s, g1).value.0, FirstMatch(s, g1).value.1)
    decreases |s| - g1
  {
    match MatchStart(s, g1)
    case Some(g2) => MatchStartSound(s, g1);
    case None => FirstMatchSound(s, g1 + 1);
  }

  lemma {:induction false} FirstMatchComplete(s: string, g1: nat, e1: nat, p: int, e2: int)
    requires 1 <= g1 <= e1 && MatchesAt(s, e1, p, e2)
    ensures FirstMatch(s, g1).Some?
    ensures FirstMatch(s, g1).value.0 <= e1
    ensures FirstMatch(s, g1).value.0 == e1 ==> e2 <= FirstMatch(s, g1).value.1
    decreases e1 - g1
  {
    if g1 == e1 {
      MatchStartComplete(s, e1, p, e2);
    } else if MatchStart(s, g1).None? {
      FirstMatchComplete(s, g1 + 1, e1, p, e2);
    }
  }

  /** `ByMatch` is the JavaScript match: a match exists exactly when some way
      of matching does, and the one reported has the shortest group 1 and,
      for it, the shortest group 2. */
  lemma ByMatchSpec(s: string)
    ensures ByMatch(s).Some? ==> Matches(s, ByMatch(s).value.0, ByMatch(s).value.1)
    ensures ByMatch(s).Some? ==> forall g1, g2 :: Matches(s, g1, g2) ==>
              ByMatch(s).value.0 <= g1 && (ByMatch(s).value.0 == g1 ==> g2 <= ByMatch(s).value.1)
    ensures ByMatch(s).None? <==> forall g1, g2 :: !Matches(s, g1, g2)
  {
    if ByMatch(s).Some? {
      FirstMatchSound(s, 1);
    }
    forall g1, g2 | Matches(s, g1, g2)
      ensures ByMatch(s).Some? && ByMatch(s).value.0 <= g1 && (ByMatch(s).value.0 == g1 ==> g2 <= ByMatch(s).value.1)
    {
      var p :| MatchesAt(s, g1, p, g2);
      FirstMatchComplete(s, 1, g1, p, g2);
    }
  }
}
