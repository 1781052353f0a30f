/** The few JavaScript string operations the core relies on:
    `String.prototype.trim`, `includes`, `split` with a string separator,
    `Array.prototype.join` and an ASCII `toLowerCase`. */
module Strings {
  import opened Seqs

  /** The characters `trim` removes and the regular-expression class `\s`
      matches: ECMAScript WhiteSpace and LineTerminator. */
  predicate IsWhitespace(c: char)
  {
    || c == ' ' || c == '\t' || c == '\n' || c == '\r' || c == '\U{B}' || c == '\U{C}'
    || c == '\U{A0}' || c == '\U{1680}' || ('\U{2000}' <= c <= '\U{200A}')
    || c == '\U{2028}' || c == '\U{2029}' || c == '\U{202F}' || c == '\U{205F}'
    || c == '\U{3000}' || c == '\U{FEFF}'
  }

  /** The characters the regular-expression `.` does not match. */
  predicate IsLineTerminator(c: char)
  {
    c == '\n' || c == '\r' || c == '\U{2028}' || c == '\U{2029}'
  }

  predicate AllWhitespace(s: string)
  {
    forall k :: 0 <= k < |s| ==> IsWhitespace(s[k])
  }

  /** Neither end of `s` is whitespace. */
  predicate IsTrimmed(s: string)
  {
    |s| == 0 || (!IsWhitespace(s[0]) && !IsWhitespace(s[|s| - 1]))
  }

  /** `s` without its leading whitespace. */
  function TrimStart(s: string): (r: string)
    ensures |r| <= |s| && r == s[|s| - |r|..]
    ensures AllWhitespace(s[..|s| - |r|])
    ensures |r| > 0 ==> !IsWhitespace(r[0])
  {
    if |s| > 0 && IsWhitespace(s[0]) then TrimStart(s[1..]) else s
  }

  /** `s` without its trailing whitespace. */
  function TrimEnd(s: string): (r: string)
    ensures |r| <= |s| && r == s[..|r|]
    ensures AllWhitespace(s[|r|..])
    ensures |r| > 0 ==> !IsWhitespace(r[|r| - 1])
  {
    if |s| > 0 && IsWhitespace(s[|s| - 1]) then TrimEnd(s[..|s| - 1]) else s
  }

  /** `s.trim()`: the middle part of `s` once the whitespace at both ends is gone. */
  function Trim(s: string): (r: string)
    ensures IsTrimmed(r)
    ensures |r| <= |s|
    ensures forall c :: c in r ==> c in s
    ensures r == [] <==> AllWhitespace(s)
  {
    var r := TrimEnd(TrimStart(s));
    assert |r| > 0 ==> r[0] == TrimStart(s)[0];
    assert r == [] ==> AllWhitespace(s) by {
      if r == [] {
        var t := TrimStart(s);
        assert s == s[..|s| - |t|] + t;
      }
    }
    r
  }

  /** `s.trim()` is the slice of `s` left between a whitespace prefix and a
      whitespace suffix; with `IsTrimmed(Trim(s))` this fixes the slice. */
  lemma TrimSlice(s: string)
    ensures exists i, j :: 0 <= i <= j <= |s| && Trim(s) == s[i..j]
                           && AllWhitespace(s[..i]) && AllWhitespace(s[j..])
  {
    var u := TrimStart(s);
    var i := |s| - |u|;
    var r := TrimEnd(u);
    var j := i + |r|;
    assert u == s[i..];
    assert r == s[i..j];
    assert u[|r|..] == s[j..];
  }

  lemma {:induction false} TrimStartPadded(w: string, x: string)
    requires AllWhitespace(w)
    requires |x| > 0 ==> !IsWhitespace(x[0])
    ensures TrimStart(w + x) == x
  {
    if |w| > 0 {
      assert (w + x)[1..] == w[1..] + x;
      TrimStartPadded(w[1..], x);
    } else {
      assert w + x == x;
    }
  }

  lemma {:induction false} TrimEndPadded(x: string, w: string)
    requires AllWhitespace(w)
    requires |x| > 0 ==> !IsWhitespace(x[|x| - 1])
    ensures TrimEnd(x + w) == x
  {
    if |w| > 0 {
      assert (x + w)[..|x + w| - 1] == x + w[..|w| - 1];
      TrimEndPadded(x, w[..|w| - 1]);
    } else {
      assert x + w == x;
    }
  }

  /** Trimming gives back any trimmed text, whatever whitespace surrounds it. */
  lemma TrimPadded(w1: string, x: string, w2: string)
    requires AllWhitespace(w1) && AllWhitespace(w2) && IsTrimmed(x)
    ensures Trim(w1 + x + w2) == x
  {
    if x == [] {
      assert AllWhitespace(w1 + x + w2);
    } else {
      assert w1 + x + w2 == w1 + (x + w2);
      TrimStartPadded(w1, x + w2);
      TrimEndPadded(x, w2);
    }
  }

  lemma TrimTrimmed(x: string)
    requires IsTrimmed(x)
    ensures Trim(x) == x
  {
    assert AllWhitespace("");
    TrimPadded("", x, "");
    assert "" + x + "" == x;
  }

  lemma SpaceIsWhitespace()
    ensures AllWhitespace(" ")
  {
    assert IsWhitespace(' ');
  }

  lemma TrimRight(x: string, w: string)
    requires IsTrimmed(x) && AllWhitespace(w)
    ensures Trim(x + w) == x
  {
    assert AllWhitespace("");
    TrimPadded("", x, w);
    assert "" + x + w == x + w;
  }

  /** `sep` starts at index `i` of `s`. */
  predicate OccursAt(s: string, sep: string, i: int)
  {
    0 <= i && i + |sep| <= |s| && s[i..i + |sep|] == sep
  }

  /** `s.indexOf(sep, i)`: the first index at or after `i` where `sep` starts. */
  function FindFrom(s: string, sep: string, i: nat): (r: Option<nat>)
    requires i <= |s|
    ensures r.Some? ==> i <= r.value && OccursAt(s, sep, r.value)
    ensures r.Some? ==> forall j :: i <= j < r.value ==> !OccursAt(s, sep, j)
    ensures r.None? ==> forall j :: i <= j ==> !OccursAt(s, sep, j)
    decreases |s| - i
  {
    if i + |sep| > |s| then None
    else if s[i..i + |sep|] == sep then Some(i)
    else FindFrom(s, sep, i + 1)
  }

  /** `s.includes(sub)`. */
  predicate Contains(s: string, sub: string)
  {
    FindFrom(s, sub, 0).Some?
  }

  lemma ContainsIff(s: string, sub: string)
    ensures Contains(s, sub) <==> exists j :: OccursAt(s, sub, j)
  {
  }

  /** `s.split(sep)` for a non-empty separator: the pieces between
      successive leftmost non-overlapping occurrences of `sep`. */
  function Split(s: string, sep: string): (parts: seq<string>)
    requires |sep| > 0
    ensures |parts| >= 1
    ensures |parts[0]| <= |s| && parts[0] == s[..|parts[0]|]
    ensures forall j :: 0 <= j < |parts[0]| ==> !OccursAt(s, sep, j)
    ensures |parts[0]| < |s| ==> OccursAt(s, sep, |parts[0]|)
    decreases |s|
  {
    match FindFrom(s, sep, 0)
    case None => [s]
    case Some(i) => [s[..i]] + Split(s[i + |sep|..], sep)
  }

  /** `parts.join(sep)`. */
  function Join(parts: seq<string>, sep: string): string
  {
    if |parts| == 0 then ""
    else if |parts| == 1 then parts[0]
    else parts[0] + sep + Join(parts[1..], sep)
  }

  /** Joining the pieces of a split with the same separator gives back the string. */
  lemma {:induction false} JoinSplit(s: string, sep: string)
    requires |sep| > 0
    ensures Join(Split(s, sep), sep) == s
    decreases |s|
  {
    match FindFrom(s, sep, 0)
    case None =>
    case Some(i) =>
      var rest := s[i + |sep|..];
      JoinSplit(rest, sep);
      assert Split(s, sep) == [s[..i]] + Split(rest, sep);
      assert s == s[..i] + s[i..i + |sep|] + rest;
  }

  /** A separator character absent from `s` leaves it whole. */
  lemma SplitWithout(s: string, c: char)
    requires c !in s
    ensures Split(s, [c]) == [s]
  {
    forall j | 0 <= j < |s| ensures !OccursAt(s, [c], j) {
      assert s[j] in s;
    }
    NotFound(s, [c], 0);
  }

  lemma {:induction false} NotFound(s: string, sep: string, i: nat)
    requires i <= |s|
    requires forall j :: i <= j < |s| ==> !OccursAt(s, sep, j)
    requires |sep| > 0
    ensures FindFrom(s, sep, i) == None
    decreases |s| - i
  {
    if i + |sep| <= |s| {
      assert !OccursAt(s, sep, i);
      NotFound(s, sep, i + 1);
    }
  }

  /** The first separator character ends the first piece. */
  lemma SplitAt(a: string, c: char, b: string)
    requires c !in a
    ensures Split(a + [c] + b, [c]) == [a] + Split(b, [c])
  {
    var s := a + [c] + b;
    assert OccursAt(s, [c], |a|);
    forall j | 0 <= j < |a| ensures !OccursAt(s, [c], j) {
      assert s[j] == a[j];
    }
    assert FindFrom(s, [c], 0) == Some(|a|);
    assert s[..|a|] == a;
    assert s[|a| + 1..] == b;
  }

  /** A split on one character yields pieces free of that character. */
  lemma {:induction false} SplitPiecesFree(s: string, c: char)
    ensures forall k :: 0 <= k < |Split(s, [c])| ==> c !in Split(s, [c])[k]
    decreases |s|
  {
    match FindFrom(s, [c], 0)
    case None =>
      if c in s {
        var j :| 0 <= j < |s| && s[j] == c;
        assert OccursAt(s, [c], j);
      }
    case Some(i) =>
      SplitPiecesFree(s[i + 1..], c);
      if c in s[..i] {
        var j :| 0 <= j < i && s[..i][j] == c;
        assert OccursAt(s, [c], j);
      }
  }

  /** A character absent from the separator and from every part is absent from the join. */
  lemma {:induction false} JoinAvoids(parts: seq<string>, sep: string, c: char)
    requires c !in sep
    requires forall k :: 0 <= k < |parts| ==> c !in parts[k]
    ensures c !in Join(parts, sep)
    decreases |parts|
  {
    if |parts| > 1 {
      JoinAvoids(parts[1..], sep, c);
    }
  }

  /** Joining non-empty trimmed parts gives a trimmed text, empty only for no parts. */
  lemma {:induction false} JoinTrimmed(parts: seq<string>, sep: string)
    requires forall k :: 0 <= k < |parts| ==> parts[k] != [] && IsTrimmed(parts[k])
    ensures |parts| > 0 ==>
              && |Join(parts, sep)| > 0 && Join(parts, sep)[0] == parts[0][0]
              && Join(parts, sep)[|Join(parts, sep)| - 1] == parts[|parts| - 1][|parts[|parts| - 1]| - 1]
    ensures IsTrimmed(Join(parts, sep))
    ensures Join(parts, sep) == [] <==> parts == []
    decreases |parts|
  {
    if |parts| > 1 {
      JoinTrimmed(parts[1..], sep);
    }
  }

  /** Splitting a join on a character none of the parts contains gives the parts back. */
  lemma {:induction false} SplitJoin(parts: seq<string>, c: char)
    requires |parts| >= 1
    requires forall k :: 0 <= k < |parts| ==> c !in parts[k]
    ensures Split(Join(parts, [c]), [c]) == parts
    decreases |parts|
  {
    if |parts| == 1 {
      SplitWithout(parts[0], c);
    } else {
      SplitJoin(parts[1..], c);
      SplitAt(parts[0], c, Join(parts[1..], [c]));
      assert parts == [parts[0]] + parts[1..];
    }
  }

  /** `s.includes(c)` for a one-character string. */
  lemma ContainsChar(s: string, c: char)
    ensures Contains(s, [c]) <==> c in s
  {
    if c in s {
      var j :| 0 <= j < |s| && s[j] == c;
      assert OccursAt(s, [c], j);
    }
    if Contains(s, [c]) {
      var j := FindFrom(s, [c], 0).value;
      assert s[j..j + 1][0] == s[j];
    }
  }

  /** The first occurrence at or after `i` is the one `FindFrom` reports. */
  lemma {:induction false} FoundAt(s: string, sep: string, i: nat, j: nat)
    requires i <= j && OccursAt(s, sep, j)
    requires forall k :: i <= k < j ==> !OccursAt(s, sep, k)
    ensures FindFrom(s, sep, i) == Some(j)
    decreases j - i
  {
    if i < j {
      assert !OccursAt(s, sep, i);
      FoundAt(s, sep, i + 1, j);
    }
  }

  /** A separator that cannot start inside `a` ends the first piece right after `a`. */
  lemma SplitFirst(a: string, sep: string, b: string)
    requires |sep| > 0
    requires forall j :: 0 <= j < |a| ==> !OccursAt(a + sep + b, sep, j)
    ensures Split(a + sep + b, sep) == [a] + Split(b, sep)
  {
    var s := a + sep + b;
    assert s[|a|..|a| + |sep|] == sep;
    FoundAt(s, sep, 0, |a|);
    assert s[..|a|] == a;
    assert s[|a| + |sep|..] == b;
  }

  /** A text lacking one of the separator's characters is not split. */
  lemma SplitAvoid(s: string, sep: string, c: char)
    requires c in sep && c !in s
    ensures Split(s, sep) == [s]
  {
    var i :| 0 <= i < |sep| && sep[i] == c;
    forall j | 0 <= j <= |s| ensures !OccursAt(s, sep, j) {
      if j + |sep| <= |s| {
        assert s[j + i] in s;
        assert s[j..j + |sep|][i] == s[j + i];
      }
    }
    NotFound(s, sep, 0);
  }

  function LowerChar(c: char): char
  {
    if 'A' <= c <= 'Z' then (c as int + 32) as char else c
  }

  /** `s.toLowerCase()` restricted to ASCII letters. */
  function ToLower(s: string): (r: string)
    ensures |r| == |s|
  {
    Map(s, LowerChar)
  }
}
