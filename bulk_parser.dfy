/** src/bulkParser.ts: turning pasted text into books. Each non-blank line
    becomes one book; the line's shape picks the format, tried in this
    order: `Title | Authors | Topics | Themes | Tags`, `Title by Authors`,
    `Title - Authors`, and otherwise a bare title. `uuidv4()` is the
    `freshId` parameter: the book built by its `n`-th call gets `freshId(n)`. */
module BulkParser {
  import opened Seqs
  import opened Strings
  import opened Library
  import opened ByPattern

  /** `(s) => s.length > 0`. */
  predicate NonEmpty(s: string)
  {
    |s| > 0
  }

  /** An entry as `parseCommaSeparated` leaves it: non-empty, trimmed, comma-free. */
  predicate CleanEntry(x: string)
  {
    x != [] && IsTrimmed(x) && ',' !in x
  }

  predicate Clean(xs: seq<string>)
  {
    forall i :: 0 <= i < |xs| ==> CleanEntry(xs[i])
  }

  /** Trimmed comma-free pieces, empty ones dropped, are clean entries. */
  lemma CleanPieces(pieces: seq<string>)
    requires forall k :: 0 <= k < |pieces| ==> ',' !in pieces[k]
    ensures forall i :: 0 <= i < |Filter(Map(pieces, Trim), NonEmpty)| ==> CleanEntry(Filter(Map(pieces, Trim), NonEmpty)[i])
  {
    var r := Filter(Map(pieces, Trim), NonEmpty);
    forall i | 0 <= i < |r| ensures CleanEntry(r[i]) {
      var x := r[i];
      FilterMembership(Map(pieces, Trim), NonEmpty, x);
      MapMemberInv(pieces, Trim, x);
      var piece :| piece in pieces && x == Trim(piece);
      var k :| 0 <= k < |pieces| && pieces[k] == piece;
    }
  }

  /** `parseCommaSeparated(str)`: the comma-separated entries, trimmed, empty ones dropped. */
  function ParseCommaSeparated(str: string): (r: seq<string>)
    ensures Clean(r)
  {
    var pieces := Split(str, ",");
    SplitPiecesFree(str, ',');
    CleanPieces(pieces);
    Filter(Map(pieces, Trim), NonEmpty)
  }

  /** The first comma splits off the first entry. */
  lemma CommaStep(a: string, b: string)
    requires ',' !in a
    ensures ParseCommaSeparated(a + [','] + b) == Filter([Trim(a)], NonEmpty) + ParseCommaSeparated(b)
  {
    SplitAt(a, ',', b);
    MapConcat([a], Split(b, ","), Trim);
    assert Map([a], Trim) == [Trim(a)];
    FilterConcat([Trim(a)], Map(Split(b, ","), Trim), NonEmpty);
  }

  /** A comma-free string is one entry, or none when blank. */
  lemma CommaFree(a: string)
    requires ',' !in a
    ensures ParseCommaSeparated(a) == Filter([Trim(a)], NonEmpty)
  {
    SplitWithout(a, ',');
    assert Map([a], Trim) == [Trim(a)];
  }

  lemma WhitespaceCommaFree(w: string)
    requires AllWhitespace(w)
    ensures ',' !in w
  {
    forall k | 0 <= k < |w| ensures w[k] != ',' {
      assert IsWhitespace(w[k]);
    }
  }

  lemma CommaJoin(w: string, x: string, rest: seq<string>)
    requires |rest| > 0
    ensures w + Join([x] + rest, ", ") == (w + x) + [','] + (" " + Join(rest, ", "))
  {
    var xs, j := [x] + rest, Join(rest, ", ");
    assert xs[0] == x && xs[1..] == rest;
    assert Join(xs, ", ") == x + ", " + j;
    assert ", " == [','] + " ";
    AppendAssoc(x, [','], " ");
    AppendAssoc(x + [','], " ", j);
    AppendAssoc(w, x, [',']);
    AppendAssoc(w, x + [','], " " + j);
  }

  /** One clean entry in front of entries already known to read back. */
  lemma CommaCons(w: string, x: string, rest: seq<string>)
    requires AllWhitespace(w) && CleanEntry(x)
    requires ParseCommaSeparated(" " + Join(rest, ", ")) == rest
    ensures ParseCommaSeparated(w + Join([x] + rest, ", ")) == [x] + rest
  {
    WhitespaceCommaFree(w);
    var a := w + x;
    TrimPadded(w, x, "");
    assert a == w + x + "";
    assert Filter([x], NonEmpty) == [x];
    if |rest| == 0 {
      assert w + Join([x] + rest, ", ") == a;
      CommaFree(a);
    } else {
      var b := " " + Join(rest, ", ");
      CommaJoin(w, x, rest);
      CommaStep(a, b);
    }
  }

  /** Clean entries written out with `", "` (after any leading whitespace) are read back as they were. */
  lemma {:induction false} ParseCommaRoundTrip(w: string, xs: seq<string>)
    requires AllWhitespace(w)
    requires Clean(xs)
    ensures ParseCommaSeparated(w + Join(xs, ", ")) == xs
    decreases |xs|
  {
    if |xs| == 0 {
      WhitespaceCommaFree(w);
      assert w + Join(xs, ", ") == w;
      CommaFree(w);
    } else {
      var rest := xs[1..];
      SpaceIsWhitespace();
      assert forall i :: 0 <= i < |rest| ==> CleanEntry(rest[i]);
      ParseCommaRoundTrip(" ", rest);
      assert CleanEntry(xs[0]);
      CommaCons(w, xs[0], rest);
      HeadTail(xs);
    }
  }

  /** Clean entries joined with `", "` are read back as they were. */
  lemma CommaJoinRoundTrip(xs: seq<string>)
    requires Clean(xs)
    ensures ParseCommaSeparated(Join(xs, ", ")) == xs
  {
    assert AllWhitespace("");
    ParseCommaRoundTrip("", xs);
    assert "" + Join(xs, ", ") == Join(xs, ", ");
  }

  lemma UntitledTrimmed()
    ensures IsTrimmed("Untitled")
  {
    assert !IsWhitespace('U') && !IsWhitespace('d');
  }

  /** A line without `|` is one field. */
  lemma PipeFreeLine(line: string)
    ensures '|' !in line ==> Split(line, "|") == [line]
  {
    if '|' !in line {
      SplitWithout(line, '|');
    }
  }

  /** `parts[i] ? parseCommaSeparated(parts[i]) : []`. */
  function ListField(parts: seq<string>, i: nat): (r: seq<string>)
    ensures Clean(r)
    ensures !(i < |parts| && parts[i] != "") ==> r == []
  {
    if i < |parts| && parts[i] != "" then ParseCommaSeparated(parts[i]) else []
  }

  /** `parsePipeSeparated(line)`: the title is never empty or padded, the
      lists hold clean entries, and a line without `|` gives a title alone. */
  function ParsePipeSeparated(line: string, id: string): (r: Book)
    ensures r.id == id && r.title != [] && IsTrimmed(r.title)
    ensures Clean(r.authors) && Clean(r.topics) && Clean(r.themes) && Clean(r.tags)
    ensures '|' !in line ==> r.authors == [] && r.topics == [] && r.themes == [] && r.tags == []
  {
    var pieces := Split(line, "|");
    MapIndex(pieces, Trim, 0);
    UntitledTrimmed();
    PipeFreeLine(line);
    var parts := Map(pieces, Trim);
    Book(id, if parts[0] != "" then parts[0] else "Untitled",
         ListField(parts, 1), ListField(parts, 2), ListField(parts, 3), ListField(parts, 4))
  }

  /** A blank first field gives the title `Untitled`. */
  lemma PipeUntitled(w: string, rest: string, id: string)
    requires AllWhitespace(w) && '|' !in w
    ensures ParsePipeSeparated(w + "|" + rest, id).title == "Untitled"
  {
    SplitAt(w, '|', rest);
    MapIndex(Split(w + "|" + rest, "|"), Trim, 0);
  }

  /** Fields missing from a short line give empty lists: with `n` fields,
      every list from field `n` on is empty. */
  lemma PipeMissingFields(line: string, id: string)
    ensures var n := |Split(line, "|")|; var r := ParsePipeSeparated(line, id);
      && (n <= 1 ==> r.authors == []) && (n <= 2 ==> r.topics == [])
      && (n <= 3 ==> r.themes == []) && (n <= 4 ==> r.tags == [])
  {
  }

  /** `title | authors`: the first field, or `Untitled`, is the title, the
      second gives the authors, and there are no topics, themes or tags. */
  lemma PipeTwoFields(t: string, a: string, id: string)
    requires '|' !in t && '|' !in a
    ensures var r := ParsePipeSeparated(t + "|" + a, id);
      && r.title == (if Trim(t) == [] then "Untitled" else Trim(t))
      && r.authors == (if Trim(a) == [] then [] else ParseCommaSeparated(Trim(a)))
      && r.topics == [] && r.themes == [] && r.tags == []
  {
    SplitAt(t, '|', a);
    SplitWithout(a, '|');
    var pieces := Split(t + "|" + a, "|");
    assert pieces == [t, a];
    MapIndex(pieces, Trim, 0);
    MapIndex(pieces, Trim, 1);
  }

  /** `parseDashFormat(line)`: the first two ` - `-separated pieces; any further piece is dropped.
      The title is trimmed, the authors are clean, and without ` - ` the
      trimmed line is the title alone. */
  function ParseDashFormat(line: string, id: string): (r: Book)
    ensures r.id == id && r.topics == [] && r.themes == [] && r.tags == []
    ensures IsTrimmed(r.title) && Clean(r.authors)
    ensures !Contains(line, " - ") ==> r.title == Trim(line) && r.authors == []
  {
    var parts := Split(line, " - ");
    Book(id, Trim(parts[0]), ListField(parts, 1), [], [], [])
  }

  /** `parseByFormat(line)`: title before ` by `, authors after it; the whole line as title when the pattern fails. */
  function ParseByFormat(line: string, id: string): (r: Book)
    ensures r.id == id && r.topics == [] && r.themes == [] && r.tags == []
    ensures Clean(r.authors)
    ensures ByMatch(line).Some? ==> IsTrimmed(r.title)
  {
    match ByMatch(line)
    case Some((g1, g2)) => Book(id, Trim(line[..g1]), ParseCommaSeparated(line[g2..]), [], [], [])
    case None => Book(id, line, [], [], [], [])
  }

  /** When no way of matching the pattern exists, the whole line is the
      title and there are no authors. */
  lemma ByNoMatch(line: string, id: string)
    requires forall g1, g2 :: !Matches(line, g1, g2)
    ensures ParseByFormat(line, id) == Book(id, line, [], [], [], [])
  {
    ByMatchSpec(line);
  }

  /** The dispatch on one trimmed line. Whatever the format, the book
      takes the id it is given and its lists hold clean entries; only the
      pipe format fills topics, themes and tags. */
  function ParseLine(trimmed: string, id: string): (r: Book)
    ensures r.id == id
    ensures Clean(r.authors) && Clean(r.topics) && Clean(r.themes) && Clean(r.tags)
    ensures '|' !in trimmed ==> r.topics == [] && r.themes == [] && r.tags == []
  {
    ContainsChar(trimmed, '|');
    if Contains(trimmed, "|") then ParsePipeSeparated(trimmed, id)
    else if Contains(ToLower(trimmed), " by ") then ParseByFormat(trimmed, id)
    else if Contains(trimmed, " - ") then ParseDashFormat(trimmed, id)
    else Book(id, trimmed, [], [], [], [])
  }

  /** The entries of `parseCommaSeparated(str)` are exactly the non-empty
      trimmed `,`-separated segments. */
  lemma CommaMembership(str: string, x: string)
    ensures x in ParseCommaSeparated(str) <==> x != [] && exists seg :: seg in Split(str, ",") && Trim(seg) == x
  {
    var pieces := Split(str, ",");
    FilterMembership(Map(pieces, Trim), NonEmpty, x);
    if x in Map(pieces, Trim) {
      MapMemberInv(pieces, Trim, x);
    }
    if exists seg :: seg in pieces && Trim(seg) == x {
      var seg :| seg in pieces && Trim(seg) == x;
      MapMember(pieces, Trim, seg);
    }
  }

  lemma ByTitle(s: string, id: string)
    requires s != [] && IsTrimmed(s)
    ensures ParseByFormat(s, id).title != [] && IsTrimmed(ParseByFormat(s, id).title)
  {
    match ByMatch(s)
    case Some((g1, g2)) =>
      assert s[..g1][0] == s[0];
      assert !AllWhitespace(s[..g1]);
    case None =>
  }

  lemma DashTitle(s: string, id: string)
    requires s != [] && IsTrimmed(s)
    ensures ParseDashFormat(s, id).title != [] && IsTrimmed(ParseDashFormat(s, id).title)
  {
    assert !IsWhitespace(s[0]);
    assert !OccursAt(s, " - ", 0) by {
      if 3 <= |s| {
        assert s[0..3][0] == s[0];
      }
    }
    var p0 := Split(s, " - ")[0];
    assert p0[0] == s[0];
    assert !AllWhitespace(p0);
  }

  /** A non-blank trimmed line always yields a non-empty trimmed title. */
  lemma ParsedTitle(s: string, id: string)
    requires s != [] && IsTrimmed(s)
    ensures ParseLine(s, id).title != [] && IsTrimmed(ParseLine(s, id).title)
  {
    if !Contains(s, "|") {
      if Contains(ToLower(s), " by ") {
        ByTitle(s, id);
      } else if Contains(s, " - ") {
        DashTitle(s, id);
      }
    }
  }

  /** A line the dispatch sends to the `by` format always matches the
      pattern, unless it holds a line terminator other than `\n`: the
      whole-line fallback of `parseByFormat` is reached only through a `\r`,
      `\u2028` or `\u2029` inside the line. */
  lemma ByDispatchMatches(s: string)
    requires IsTrimmed(s) && NoLineTerminator(s)
    requires Contains(ToLower(s), " by ")
    ensures ByMatch(s).Some?
  {
    var low := ToLower(s);
    ContainsIff(low, " by ");
    var j :| OccursAt(low, " by ", j);
    assert 0 <= j && j + 4 <= |s|;
    var w := low[j..j + 4];
    assert w == " by ";
    assert w[0] == ' ' && w[1] == 'b' && w[2] == 'y' && w[3] == ' ';
    assert w[0] == low[j] && w[1] == low[j + 1] && w[2] == low[j + 2] && w[3] == low[j + 3];
    MapIndex(s, LowerChar, j);
    MapIndex(s, LowerChar, j + 1);
    MapIndex(s, LowerChar, j + 2);
    MapIndex(s, LowerChar, j + 3);
    assert s[j] == ' ' && s[j + 3] == ' ';
    assert IsBy(s, j + 1);
    assert 1 <= j && j + 4 < |s|;
    assert s[j..j + 1][0] == s[j];
    assert s[j + 3..j + 4][0] == s[j + 3];
    assert NoLineTerminator(s[..j]) by {
      forall k | 0 <= k < j ensures !IsLineTerminator(s[..j][k]) {
        assert s[..j][k] == s[k];
      }
    }
    assert NoLineTerminator(s[j + 4..]) by {
      var t := s[j + 4..];
      forall k | 0 <= k < |t| ensures !IsLineTerminator(t[k]) {
        assert t[k] == s[j + 4 + k];
      }
    }
    assert MatchesAt(s, j, j + 1, j + 4);
    assert Matches(s, j, j + 4);
    ByMatchSpec(s);
  }

  /** `title` holds no whitespace, then `by` in either case, then whitespace
      or the title's end: the lazy group 1 has nowhere to stop inside it. */
  predicate NoInnerBy(title: string)
  {
    forall p :: 0 < p < |title| - 1 && IsWhitespace(title[p - 1])
                && (title[p] == 'b' || title[p] == 'B') && (title[p + 1] == 'y' || title[p + 1] == 'Y')
                ==> p + 2 < |title| && !IsWhitespace(title[p + 2])
  }

  /** A whitespace slice is whitespace at each of its indices. */
  lemma SliceWhitespace(s: string, i: int, j: int)
    requires 0 <= i <= j <= |s| && AllWhitespace(s[i..j])
    ensures forall k :: i <= k < j ==> IsWhitespace(s[k])
  {
    forall k | i <= k < j ensures IsWhitespace(s[k]) {
      assert s[i..j][k - i] == s[k];
    }
  }

  /** `NoInnerBy` read on a line that starts with the title. */
  lemma NoInnerByPrefix(s: string, title: string)
    requires NoInnerBy(title) && |title| <= |s| && s[..|title|] == title
    ensures forall p :: 0 < p < |title| - 1 && IsWhitespace(s[p - 1])
                        && (s[p] == 'b' || s[p] == 'B') && (s[p + 1] == 'y' || s[p + 1] == 'Y')
                        ==> p + 2 < |title| && !IsWhitespace(s[p + 2])
  {
    var n := |title|;
    forall p | 0 < p < n - 1 && IsWhitespace(s[p - 1])
               && (s[p] == 'b' || s[p] == 'B') && (s[p + 1] == 'y' || s[p + 1] == 'Y')
      ensures p + 2 < n && !IsWhitespace(s[p + 2])
    {
      assert s[..n][p - 1] == s[p - 1] && s[..n][p] == s[p] && s[..n][p + 1] == s[p + 1];
      if p + 2 < n {
        assert s[..n][p + 2] == s[p + 2];
      }
    }
  }

  /** A line that starts with `title` and a space, with no whitespace-`by`
      inside the title, cannot end group 1 before the title's end. */
  lemma CutAfterTitle(s: string, title: string, g1: int, p: int, g2: int)
    requires title != [] && IsTrimmed(title) && NoInnerBy(title)
    requires |title| < |s| && s[..|title|] == title && s[|title|] == ' '
    requires MatchesAt(s, g1, p, g2)
    ensures g1 >= |title|
  {
    var n := |title|;
    NoInnerByPrefix(s, title);
    assert s[..n][n - 1] == s[n - 1];
    // the whitespace before `by` cannot cover the title's last character
    assert !IsWhitespace(s[n - 1]);
    SliceWhitespace(s, g1, p);
    assert IsWhitespace(s[n - 1]) || !(g1 <= n - 1 < p);
    // `y` is not the space after the title
    assert s[p + 1] != ' ';
    // whitespace, `by`, whitespace at `p` cannot lie inside the title
    assert IsWhitespace(s[p - 1]);
    assert IsWhitespace(s[p + 2]) by {
      assert s[p + 2..g2][0] == s[p + 2];
    }
    assert !(0 < p < n - 1);
  }

  /** In `title + " by " + rest`, every match of the pattern ends group 1 at
      the separator or later, and one ending it exactly there starts group 2
      right after the separator. */
  lemma ByMatchBounds(title: string, rest: string, g1: int, p: int, g2: int)
    requires title != [] && IsTrimmed(title) && NoInnerBy(title)
    requires rest != [] && !IsWhitespace(rest[0])
    requires MatchesAt(title + " by " + rest, g1, p, g2)
    ensures g1 >= |title|
    ensures g1 == |title| ==> g2 == |title| + 4
  {
    var s := title + " by " + rest;
    var n := |title|;
    assert s[..n] == title;
    assert s[n] == ' ' && s[n + 1] == 'b' && s[n + 3] == ' ';
    assert s[n + 4] == rest[0];
    CutAfterTitle(s, title, g1, p, g2);
    assert forall k :: g1 <= k < p ==> IsWhitespace(s[k]) by {
      forall k | g1 <= k < p ensures IsWhitespace(s[k]) {
        assert s[g1..p][k - g1] == s[k];
      }
    }
    assert forall k :: p + 2 <= k < g2 ==> IsWhitespace(s[k]) by {
      forall k | p + 2 <= k < g2 ensures IsWhitespace(s[k]) {
        assert s[p + 2..g2][k - (p + 2)] == s[k];
      }
    }
  }

  /** For a `Title by A, B` line, the lazy match ends group 1 at the
      separator and starts group 2 right after it. */
  lemma ByRoundTripMatch(title: string, rest: string)
    requires title != [] && IsTrimmed(title) && NoLineTerminator(title) && NoInnerBy(title)
    requires rest != [] && !IsWhitespace(rest[0]) && NoLineTerminator(rest)
    ensures ByMatch(title + " by " + rest) == Some((|title|, |title| + 4))
  {
    var s := title + " by " + rest;
    var n := |title|;
    assert s[..n] == title && s[n + 4..] == rest;
    assert s[n..n + 1][0] == s[n];
    assert s[n + 3..n + 4][0] == s[n + 3];
    assert MatchesAt(s, n, n + 1, n + 4);
    assert Matches(s, n, n + 4);
    ByMatchSpec(s);
    var p :| MatchesAt(s, ByMatch(s).value.0, p, ByMatch(s).value.1);
    ByMatchBounds(title, rest, ByMatch(s).value.0, p, ByMatch(s).value.1);
  }

  /** A `Title by A, B` line is read back as that title and those authors,
      provided the title holds no whitespace-`by`: the lazy group 1 stops
      at the first whitespace-`by`-whitespace, so a title holding one is cut
      there. */
  lemma ByRoundTrip(title: string, authors: seq<string>, id: string)
    requires title != [] && IsTrimmed(title) && NoLineTerminator(title) && NoInnerBy(title)
    requires authors != [] && Clean(authors) && NoLineTerminator(Join(authors, ", "))
    ensures ParseByFormat(title + " by " + Join(authors, ", "), id) == Book(id, title, authors, [], [], [])
  {
    var rest := Join(authors, ", ");
    var s := title + " by " + rest;
    assert s[..|title|] == title && s[|title| + 4..] == rest;
    JoinTrimmed(authors, ", ");
    ByRoundTripMatch(title, rest);
    TrimTrimmed(title);
    CommaJoinRoundTrip(authors);
  }

  /** A title holding ` by ` is cut at it: the lazy group 1 makes
      `Stand by Me by Stephen King` the book `Stand` by `Me by Stephen King`. */
  lemma ByCutsAtFirst(id: string)
    ensures ParseByFormat("Stand by Me by Stephen King", id)
         == Book(id, "Stand", ["Me by Stephen King"], [], [], [])
  {
    var author := "Me by Stephen King";
    ExampleTitle();
    ExampleAuthor();
    assert "Stand by Me by Stephen King" == "Stand" + " by " + author;
    ByRoundTrip("Stand", [author], id);
  }

  lemma ExampleTitle()
    ensures IsTrimmed("Stand") && NoLineTerminator("Stand") && NoInnerBy("Stand")
  {
  }

  lemma ExampleAuthor()
    ensures Clean(["Me by Stephen King"]) && Join(["Me by Stephen King"], ", ") == "Me by Stephen King"
    ensures NoLineTerminator("Me by Stephen King")
  {
    assert Join(["Me by Stephen King"], ", ") == "Me by Stephen King";
  }

  /** The `, `-joined entries in field `i` are read back as they were. */
  lemma ListFieldRoundTrip(parts: seq<string>, i: nat, xs: seq<string>)
    requires i < |parts| && parts[i] == Join(xs, ", ") && Clean(xs)
    ensures ListField(parts, i) == xs
  {
    CommaJoinRoundTrip(xs);
  }

  /** The five fields of a book as a pipe line spells them, padded with a space. */
  function PipeFields(b: Book): seq<string>
  {
    [b.title + " ", " " + Join(b.authors, ", ") + " ", " " + Join(b.topics, ", ") + " ",
     " " + Join(b.themes, ", ") + " ", " " + Join(b.tags, ", ")]
  }

  predicate PipeFree(xs: seq<string>)
  {
    forall i :: 0 <= i < |xs| ==> '|' !in xs[i]
  }

  lemma PaddedField(xs: seq<string>, right: string)
    requires Clean(xs) && (right == "" || right == " ")
    ensures Trim(" " + Join(xs, ", ") + right) == Join(xs, ", ")
  {
    JoinTrimmed(xs, ", ");
    SpaceIsWhitespace();
    assert AllWhitespace(right);
    TrimPadded(" ", Join(xs, ", "), right);
  }

  /** Splitting a pipe line on `|` gives its padded fields back. */
  lemma PipeSplit(b: Book, extra: seq<string>)
    requires '|' !in b.title
    requires PipeFree(b.authors) && PipeFree(b.topics) && PipeFree(b.themes) && PipeFree(b.tags)
    requires PipeFree(extra)
    ensures Split(Join(PipeFields(b) + extra, "|"), "|") == PipeFields(b) + extra
  {
    var fields := PipeFields(b) + extra;
    JoinAvoids(b.authors, ", ", '|');
    JoinAvoids(b.topics, ", ", '|');
    JoinAvoids(b.themes, ", ", '|');
    JoinAvoids(b.tags, ", ", '|');
    forall k | 0 <= k < |fields| ensures '|' !in fields[k] {
      if k >= 5 {
        assert fields[k] == extra[k - 5];
      }
    }
    SplitJoin(fields, '|');
  }

  lemma PipeFieldsAt(b: Book, extra: seq<string>)
    ensures var fields := PipeFields(b) + extra;
      && |fields| >= 5 && fields[0] == b.title + " "
      && fields[1] == " " + Join(b.authors, ", ") + " " && fields[2] == " " + Join(b.topics, ", ") + " "
      && fields[3] == " " + Join(b.themes, ", ") + " " && fields[4] == " " + Join(b.tags, ", ") + ""
  {
    assert " " + Join(b.tags, ", ") + "" == " " + Join(b.tags, ", ");
  }

  /** A padded list field is read back as the list it spells. */
  lemma PaddedFieldRoundTrip(fields: seq<string>, k: nat, xs: seq<string>, right: string)
    requires k < |fields| && Clean(xs) && (right == "" || right == " ")
    requires fields[k] == " " + Join(xs, ", ") + right
    ensures ListField(Map(fields, Trim), k) == xs
  {
    MapIndex(fields, Trim, k);
    PaddedField(xs, right);
    ListFieldRoundTrip(Map(fields, Trim), k, xs);
  }

  /** The padded title trims back to the title. */
  lemma PaddedTitle(fields: seq<string>, title: string)
    requires |fields| > 0 && IsTrimmed(title) && fields[0] == title + " "
    ensures Map(fields, Trim)[0] == title
  {
    SpaceIsWhitespace();
    TrimRight(title, " ");
    MapIndex(fields, Trim, 0);
  }

  /** `Title | Authors | Topics | Themes | Tags` is read back field by field,
      and any further `|`-separated fields are ignored. */
  lemma PipeRoundTrip(b: Book, extra: seq<string>, id: string)
    requires b.title != [] && IsTrimmed(b.title) && '|' !in b.title
    requires Clean(b.authors) && Clean(b.topics) && Clean(b.themes) && Clean(b.tags)
    requires PipeFree(b.authors) && PipeFree(b.topics) && PipeFree(b.themes) && PipeFree(b.tags)
    requires PipeFree(extra)
    ensures ParsePipeSeparated(Join(PipeFields(b) + extra, "|"), id) == b.(id := id)
  {
    var fields := PipeFields(b) + extra;
    PipeSplit(b, extra);
    PipeFieldsAt(b, extra);
    PaddedTitle(fields, b.title);
    PaddedFieldRoundTrip(fields, 1, b.authors, " ");
    PaddedFieldRoundTrip(fields, 2, b.topics, " ");
    PaddedFieldRoundTrip(fields, 3, b.themes, " ");
    PaddedFieldRoundTrip(fields, 4, b.tags, "");
  }

  /** ` - ` cannot start inside a dash-free `a` followed by ` - `. */
  lemma NoDashBefore(a: string, rest: string)
    requires '-' !in a
    ensures forall j :: 0 <= j < |a| ==> !OccursAt(a + " - " + rest, " - ", j)
  {
    var s := a + " - " + rest;
    forall j | 0 <= j < |a| ensures !OccursAt(s, " - ", j) {
      if j + 3 <= |s| {
        assert s[j..j + 3][1] == s[j + 1];
        if j + 1 < |a| {
          assert s[j + 1] == a[j + 1];
        } else {
          assert s[j + 1] == ' ';
        }
      }
    }
  }

  /** Splitting `title - rest` on ` - ` gives `title`, then `rest` up to
      any further ` - `. */
  lemma DashSplit(title: string, rest: string, tail: string)
    requires '-' !in title && '-' !in rest
    requires tail == [] || (|tail| >= 3 && tail[..3] == " - ")
    ensures var parts := Split(title + " - " + rest + tail, " - ");
      |parts| >= 2 && parts[0] == title && parts[1] == rest
  {
    NoDashBefore(title, rest + tail);
    assert title + " - " + rest + tail == title + " - " + (rest + tail);
    SplitFirst(title, " - ", rest + tail);
    DashTail(rest, tail);
  }

  lemma DashTail(rest: string, tail: string)
    requires '-' !in rest
    requires tail == [] || (|tail| >= 3 && tail[..3] == " - ")
    ensures Split(rest + tail, " - ")[0] == rest
  {
    if tail == [] {
      assert rest + tail == rest;
      SplitAvoid(rest, " - ", '-');
    } else {
      var t := tail[3..];
      assert tail == " - " + t;
      assert rest + tail == rest + " - " + t;
      NoDashBefore(rest, t);
      SplitFirst(rest, " - ", t);
    }
  }

  /** A `Title - A, B` line is read back as that title and those authors;
      anything after a further ` - ` is dropped. */
  lemma DashRoundTrip(title: string, authors: seq<string>, tail: string, id: string)
    requires title != [] && IsTrimmed(title) && '-' !in title
    requires Clean(authors) && forall i :: 0 <= i < |authors| ==> '-' !in authors[i]
    requires tail == [] || (|tail| >= 3 && tail[..3] == " - ")
    ensures ParseDashFormat(title + " - " + Join(authors, ", ") + tail, id) == Book(id, title, authors, [], [], [])
  {
    var rest := Join(authors, ", ");
    JoinAvoids(authors, ", ", '-');
    DashSplit(title, rest, tail);
    DashFields(Split(title + " - " + rest + tail, " - "), title, authors, id);
  }

  /** The dash book built from pieces that hold the title and the joined authors. */
  lemma DashFields(parts: seq<string>, title: string, authors: seq<string>, id: string)
    requires |parts| >= 2 && parts[0] == title && parts[1] == Join(authors, ", ")
    requires IsTrimmed(title) && Clean(authors)
    ensures Book(id, Trim(parts[0]), ListField(parts, 1), [], [], []) == Book(id, title, authors, [], [], [])
  {
    ListFieldRoundTrip(parts, 1, authors);
    TrimTrimmed(title);
  }

  /** `(line) => line.trim()` as a filter test. */
  predicate IsNonBlank(line: string)
  {
    Trim(line) != []
  }

  /** `text.split('\n').filter((line) => line.trim())`: the kept lines
      hold no `\n` and are not blank. */
  function NonBlankLines(text: string): (lines: seq<string>)
    ensures forall j :: 0 <= j < |lines| ==> Trim(lines[j]) != [] && '\n' !in lines[j]
  {
    var pieces := Split(text, "\n");
    SplitPiecesFree(text, '\n');
    NonBlankPieces(pieces);
    Filter(pieces, IsNonBlank)
  }

  lemma NonBlankPieces(pieces: seq<string>)
    requires forall k :: 0 <= k < |pieces| ==> '\n' !in pieces[k]
    ensures forall j :: 0 <= j < |Filter(pieces, IsNonBlank)| ==>
              Trim(Filter(pieces, IsNonBlank)[j]) != [] && '\n' !in Filter(pieces, IsNonBlank)[j]
  {
    var lines := Filter(pieces, IsNonBlank);
    forall j | 0 <= j < |lines| ensures Trim(lines[j]) != [] && '\n' !in lines[j] {
      FilterMembership(pieces, IsNonBlank, lines[j]);
      var k :| 0 <= k < |pieces| && pieces[k] == lines[j];
    }
  }

  /** The books pushed after visiting `lines`, each line parsed by `parse`: at most one per line. */
  function ParseLines(lines: seq<string>, freshId: nat -> string, parse: (string, string) -> Book): (books: seq<Book>)
    ensures |books| <= |lines|
  {
    if |lines| == 0 then []
    else
      var prev := ParseLines(lines[..|lines| - 1], freshId, parse);
      var trimmed := Trim(lines[|lines| - 1]);
      if trimmed == [] then prev else prev + [parse(trimmed, freshId(|prev|))]
  }

  /** One more line visited: at most one more book, with the next fresh id. */
  lemma ParseLinesStep(lines: seq<string>, i: nat, freshId: nat -> string, parse: (string, string) -> Book)
    requires i < |lines|
    ensures ParseLines(lines[..i + 1], freshId, parse)
         == ParseLines(lines[..i], freshId, parse)
            + (if Trim(lines[i]) == [] then [] else [parse(Trim(lines[i]), freshId(|ParseLines(lines[..i], freshId, parse)|))])
  {
    assert lines[..i + 1][..i] == lines[..i];
  }

  /** `parseBulkInput(text)`. */
  method ParseBulkInput(text: string, freshId: nat -> string) returns (books: seq<Book>)
    ensures books == ParseLines(NonBlankLines(text), freshId, ParseLine)
    ensures |books| == |NonBlankLines(text)|
    ensures forall j :: 0 <= j < |books| ==> books[j] == ParseLine(Trim(NonBlankLines(text)[j]), freshId(j))
    ensures forall j :: 0 <= j < |books| ==> books[j].id == freshId(j) && books[j].title != []
  {
    var lines := NonBlankLines(text);
    books := [];
    for i := 0 to |lines|
      invariant books == ParseLines(lines[..i], freshId, ParseLine)
    {
      var trimmed := Trim(lines[i]);
      ParseLinesStep(lines, i, freshId, ParseLine);
      if trimmed == [] {
        continue;
      }
      var book := ParseLine(trimmed, freshId(|books|));
      books := books + [book];
    }
    assert lines[..|lines|] == lines;
    ParsedBooks(text, freshId);
  }

  /** What the books of `parseBulkInput(text)` are. */
  lemma ParsedBooks(text: string, freshId: nat -> string)
    ensures |ParseLines(NonBlankLines(text), freshId, ParseLine)| == |NonBlankLines(text)|
    ensures forall j :: 0 <= j < |NonBlankLines(text)| ==>
              ParseLines(NonBlankLines(text), freshId, ParseLine)[j] == ParseLine(Trim(NonBlankLines(text)[j]), freshId(j))
    ensures forall j :: 0 <= j < |NonBlankLines(text)| ==>
              ParseLines(NonBlankLines(text), freshId, ParseLine)[j].id == freshId(j) && ParseLines(NonBlankLines(text), freshId, ParseLine)[j].title != []
  {
    var lines := NonBlankLines(text);
    ParseLinesOnePerLine(lines, freshId, ParseLine);
    ParseLinesTitles(lines, freshId);
  }

  /** Over non-blank lines, every book has a non-empty title. */
  lemma ParseLinesTitles(lines: seq<string>, freshId: nat -> string)
    requires forall j :: 0 <= j < |lines| ==> Trim(lines[j]) != []
    ensures forall j :: 0 <= j < |ParseLines(lines, freshId, ParseLine)| ==> ParseLines(lines, freshId, ParseLine)[j].title != []
  {
    ParseLinesOnePerLine(lines, freshId, ParseLine);
    forall j | 0 <= j < |ParseLines(lines, freshId, ParseLine)| ensures ParseLines(lines, freshId, ParseLine)[j].title != [] {
      ParsedTitle(Trim(lines[j]), freshId(j));
    }
  }

  /** Every non-blank line yields a book. */
  lemma {:induction false} ParseLinesLength(lines: seq<string>, freshId: nat -> string, parse: (string, string) -> Book)
    requires forall j :: 0 <= j < |lines| ==> Trim(lines[j]) != []
    ensures |ParseLines(lines, freshId, parse)| == |lines|
  {
    if |lines| > 0 {
      var init := lines[..|lines| - 1];
      assert forall j :: 0 <= j < |init| ==> init[j] == lines[j];
      ParseLinesLength(init, freshId, parse);
      assert Trim(lines[|lines| - 1]) != [];
    }
  }

  /** The `j`-th book comes from the `j`-th line and has the `j`-th fresh id. */
  lemma {:induction false} ParseLinesAt(lines: seq<string>, freshId: nat -> string, parse: (string, string) -> Book, j: nat)
    requires forall k :: 0 <= k < |lines| ==> Trim(lines[k]) != []
    requires j < |lines|
    ensures j < |ParseLines(lines, freshId, parse)|
    ensures ParseLines(lines, freshId, parse)[j] == parse(Trim(lines[j]), freshId(j))
  {
    var init := lines[..|lines| - 1];
    assert forall k :: 0 <= k < |init| ==> init[k] == lines[k];
    ParseLinesLength(init, freshId, parse);
    assert Trim(lines[|lines| - 1]) != [];
    if j < |init| {
      ParseLinesAt(init, freshId, parse, j);
      assert init[j] == lines[j];
    }
  }

  /** Every non-blank line yields one book, the `j`-th with the `j`-th fresh id. */
  lemma ParseLinesOnePerLine(lines: seq<string>, freshId: nat -> string, parse: (string, string) -> Book)
    requires forall j :: 0 <= j < |lines| ==> Trim(lines[j]) != []
    ensures |ParseLines(lines, freshId, parse)| == |lines|
    ensures forall j :: 0 <= j < |lines| ==> ParseLines(lines, freshId, parse)[j] == parse(Trim(lines[j]), freshId(j))
  {
    ParseLinesLength(lines, freshId, parse);
    forall j | 0 <= j < |lines| ensures ParseLines(lines, freshId, parse)[j] == parse(Trim(lines[j]), freshId(j)) {
      ParseLinesAt(lines, freshId, parse, j);
    }
  }
}
