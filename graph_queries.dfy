/** The two queries of src/graphBuilder.ts that read the library instead of
    drawing it: `findRelatedBooks`, the books sharing any attribute with a
    given book, and `getConnectedBooks`, the books behind an attribute node. */
module GraphQueries {
  import opened Seqs
  import opened Strings
  import opened Library
  import opened GraphIdentity
  import opened GraphBuilder

  /** `xs.some((x) => ys.includes(x))`. */
  predicate SomeIncluded(xs: seq<string>, ys: seq<string>)
  {
    exists i :: 0 <= i < |xs| && xs[i] in ys
  }

  /** `a` and `b` have a common value in their lists of kind `k`. */
  predicate SharesKind(a: Book, b: Book, k: AttributeKind)
  {
    SomeIncluded(Values(a, k), Values(b, k))
  }

  /** `a` and `b` have a common author, topic, theme or tag. */
  predicate Shares(a: Book, b: Book)
  {
    SharesKind(a, b, Author) || SharesKind(a, b, Topic) || SharesKind(a, b, Theme) || SharesKind(a, b, Tag)
  }

  /** The set `related` after visiting `others`. */
  function RelatedIds(book: Book, others: seq<Book>): set<string>
  {
    if |others| == 0 then {}
    else
      var other := others[|others| - 1];
      RelatedIds(book, others[..|others| - 1]) + (if other.id != book.id && Shares(book, other) then {other.id} else {})
  }

  /** An id is related exactly when some other book with that id shares an attribute. */
  lemma {:induction false} RelatedIdsIff(book: Book, others: seq<Book>, id: string)
    ensures id in RelatedIds(book, others)
        <==> exists o :: o in others && o.id == id && id != book.id && Shares(book, o)
  {
    if |others| > 0 {
      var init, last := others[..|others| - 1], others[|others| - 1];
      RelatedIdsIff(book, init, id);
      assert others == init + [last];
      if id in RelatedIds(book, init) {
        var o :| o in init && o.id == id && id != book.id && Shares(book, o);
        assert o in others;
      }
    }
  }

  /** `findRelatedBooks(book, allBooks)`. */
  method FindRelatedBooks(book: Book, allBooks: seq<Book>) returns (result: seq<Book>)
    ensures result == Filter(allBooks, (b: Book) => b.id in RelatedIds(book, allBooks))
    ensures forall b :: b in result <==>
              b in allBooks && b.id != book.id && exists o :: o in allBooks && o.id == b.id && Shares(book, o)
  {
    var related: set<string> := {};
    for i := 0 to |allBooks|
      invariant related == RelatedIds(book, allBooks[..i])
    {
      var other := allBooks[i];
      assert allBooks[..i + 1][..i] == allBooks[..i];
      if other.id == book.id {
        continue;
      }
      if SomeIncluded(book.authors, other.authors) {
        related := related + {other.id};
        continue;
      }
      if SomeIncluded(book.topics, other.topics) {
        related := related + {other.id};
        continue;
      }
      if SomeIncluded(book.themes, other.themes) {
        related := related + {other.id};
        continue;
      }
      if SomeIncluded(book.tags, other.tags) {
        related := related + {other.id};
      }
    }
    assert allBooks[..|allBooks|] == allBooks;
    result := Filter(allBooks, (b: Book) => b.id in related);
    forall b ensures b in result <==>
                     b in allBooks && b.id != book.id && exists o :: o in allBooks && o.id == b.id && Shares(book, o)
    {
      FilterMembership(allBooks, (b: Book) => b.id in related, b);
      RelatedIdsIff(book, allBooks, b.id);
    }
  }

  /** No two books of the list have the same id. */
  predicate UniqueIds(books: seq<Book>)
  {
    forall i, j :: 0 <= i < j < |books| ==> books[i].id != books[j].id
  }

  lemma UniqueMember(books: seq<Book>, a: Book, b: Book)
    requires UniqueIds(books) && a in books && b in books && a.id == b.id
    ensures a == b
  {
    var i :| 0 <= i < |books| && books[i] == a;
    var j :| 0 <= j < |books| && books[j] == b;
    assert i == j;
  }

  /** With distinct ids, the related books are exactly the other books that
      share an attribute, in library order. */
  lemma RelatedWhenUnique(book: Book, allBooks: seq<Book>)
    requires UniqueIds(allBooks)
    ensures Filter(allBooks, (b: Book) => b.id in RelatedIds(book, allBooks))
         == Filter(allBooks, (b: Book) => b.id != book.id && Shares(book, b))
  {
    forall b | b in allBooks
      ensures (b.id in RelatedIds(book, allBooks)) == (b.id != book.id && Shares(book, b))
    {
      RelatedIdsIff(book, allBooks, b.id);
      if b.id in RelatedIds(book, allBooks) {
        var o :| o in allBooks && o.id == b.id && b.id != book.id && Shares(book, o);
        UniqueMember(allBooks, o, b);
      }
    }
    FilterCongruence(allBooks, (b: Book) => b.id in RelatedIds(book, allBooks), (b: Book) => b.id != book.id && Shares(book, b));
  }

  /** A book is never related to itself, nor to a book carrying its own id. */
  lemma NotSelfRelated(book: Book, allBooks: seq<Book>)
    ensures book.id !in RelatedIds(book, allBooks)
  {
    RelatedIdsIff(book, allBooks, book.id);
  }

  lemma SomeIncludedSymmetric(xs: seq<string>, ys: seq<string>)
    ensures SomeIncluded(xs, ys) == SomeIncluded(ys, xs)
  {
    if SomeIncluded(xs, ys) {
      var i :| 0 <= i < |xs| && xs[i] in ys;
      var j :| 0 <= j < |ys| && ys[j] == xs[i];
      assert ys[j] in xs;
    }
    if SomeIncluded(ys, xs) {
      var j :| 0 <= j < |ys| && ys[j] in xs;
      var i :| 0 <= i < |xs| && xs[i] == ys[j];
      assert xs[i] in ys;
    }
  }

  /** Relatedness is mutual among books with distinct ids. */
  lemma RelatedSymmetric(a: Book, b: Book, allBooks: seq<Book>)
    requires UniqueIds(allBooks) && a in allBooks && b in allBooks
    ensures a.id in RelatedIds(b, allBooks) <==> b.id in RelatedIds(a, allBooks)
  {
    SomeIncludedSymmetric(a.authors, b.authors);
    SomeIncludedSymmetric(a.topics, b.topics);
    SomeIncludedSymmetric(a.themes, b.themes);
    SomeIncludedSymmetric(a.tags, b.tags);
    RelatedIdsIff(b, allBooks, a.id);
    RelatedIdsIff(a, allBooks, b.id);
    if a.id in RelatedIds(b, allBooks) {
      var o :| o in allBooks && o.id == a.id && a.id != b.id && Shares(b, o);
      UniqueMember(allBooks, o, a);
    }
    if b.id in RelatedIds(a, allBooks) {
      var o :| o in allBooks && o.id == b.id && b.id != a.id && Shares(a, o);
      UniqueMember(allBooks, o, b);
    }
  }

  /** The `switch (type)` test applied to one book. */
  predicate HasAttribute(kind: Option<AttributeKind>, name: string, b: Book)
  {
    match kind
    case Some(k) => name in Values(b, k)
    case None => false
  }

  /** `getConnectedBooks(attributeId, books)`. */
  function GetConnectedBooks(attributeId: string, books: seq<Book>): (r: seq<Book>)
    ensures |r| <= |books|
    ensures forall b :: b in r <==>
              b in books && HasAttribute(KindOfName(ParseNodeId(attributeId).0), ParseNodeId(attributeId).1, b)
  {
    var (kindName, name) := ParseNodeId(attributeId);
    FilterIff(books, (b: Book) => HasAttribute(KindOfName(kindName), name, b));
    Filter(books, (b: Book) => HasAttribute(KindOfName(kindName), name, b))
  }

  /** For the id of an attribute node, the connected books are those whose
      list of that kind holds the value, colons in the value included. */
  lemma ConnectedByIdentity(k: AttributeKind, v: string, books: seq<Book>)
    ensures GetConnectedBooks(AttributeId(k, v), books) == Filter(books, (b: Book) => v in Values(b, k))
  {
    ParseAttributeId(k, v);
    FilterCongruence(books, (b: Book) => HasAttribute(KindOfName(KindName(k)), v, b), (b: Book) => v in Values(b, k));
  }

  lemma ConnectedMembership(k: AttributeKind, v: string, books: seq<Book>, b: Book)
    ensures b in GetConnectedBooks(AttributeId(k, v), books) <==> b in books && v in Values(b, k)
  {
    ConnectedByIdentity(k, v, books);
    FilterMembership(books, (b: Book) => v in Values(b, k), b);
  }

  /** A bare kind name such as `author` has no colon: it parses as that
      kind with the empty name, so its connected books are those whose list
      of that kind holds the empty string. */
  lemma ConnectedBareKind(k: AttributeKind, books: seq<Book>)
    ensures GetConnectedBooks(KindName(k), books) == Filter(books, (b: Book) => "" in Values(b, k))
  {
    ParseColonFree(KindName(k));
    assert KindOfName(KindName(k)) == Some(k) by {
      match k
      case Author =>
      case Topic =>
      case Theme =>
      case Tag =>
    }
    FilterCongruence(books, (b: Book) => HasAttribute(KindOfName(KindName(k)), "", b), (b: Book) => "" in Values(b, k));
  }

  /** An id whose prefix names no attribute kind (a book or suggestion node,
      or text without a known prefix) has no connected books. */
  lemma UnknownKindEmpty(attributeId: string, books: seq<Book>)
    requires KindOfName(ParseNodeId(attributeId).0).None?
    ensures GetConnectedBooks(attributeId, books) == []
  {
    var name := ParseNodeId(attributeId).1;
    FilterNone(books, (b: Book) => HasAttribute(KindOfName(ParseNodeId(attributeId).0), name, b));
  }

  lemma BookNodeHasNoConnected(id: string, books: seq<Book>)
    ensures GetConnectedBooks(BookNodeId(id), books) == []
  {
    BookPrefixUnknown(id);
    UnknownKindEmpty(BookNodeId(id), books);
  }

  lemma BookPrefixUnknown(id: string)
    ensures KindOfName(ParseNodeId(BookNodeId(id)).0).None?
  {
    ParseNodeIdRoundTrip("book", id);
    BookNameUnknown();
  }

  lemma BookNameUnknown()
    ensures KindOfName("book").None?
  {
  }

  /** Clicking an attribute node of a built graph lists exactly the books
      drawn with a link to it: the sources of the links into `kind:v` are the
      book nodes of `getConnectedBooks("kind:v")`. */
  lemma ConnectedAgreesWithLinks(books: seq<Book>, t: EdgeToggles, threshold: int, k: AttributeKind, v: string)
    requires AttributeId(k, v) in ValidIds(books, t, threshold)
    ensures (set l | l in AttributeLinks(books, t, ValidIds(books, t, threshold)) && l.target == AttributeId(k, v) :: l.source)
         == (set b | b in GetConnectedBooks(AttributeId(k, v), books) :: BookNodeId(b.id))
  {
    var valid := ValidIds(books, t, threshold);
    var id := AttributeId(k, v);
    var links := AttributeLinks(books, t, valid);
    ValidIdsIff(books, t, threshold, k, v);
    forall l | l in links && l.target == id
      ensures l.source in (set b | b in GetConnectedBooks(id, books) :: BookNodeId(b.id))
    {
      AttributeLinkShape(books, t, valid, l);
      var i, w :| 0 <= i < |books| && w in Values(books[i], l.linkType)
                  && l.source == BookNodeId(books[i].id) && l.target == AttributeId(l.linkType, w);
      AttributeIdInjective(l.linkType, w, k, v);
      ConnectedMembership(k, v, books, books[i]);
    }
    forall b | b in GetConnectedBooks(id, books)
      ensures BookNodeId(b.id) in (set l | l in links && l.target == id :: l.source)
    {
      ConnectedMembership(k, v, books, b);
      var i :| 0 <= i < |books| && books[i] == b;
      AttributeLinkPresent(books, t, valid, i, k, v);
      var l := GraphLink(BookNodeId(b.id), id, k);
      assert l in links && l.target == id;
    }
  }

  /** The same agreement over the links `BuildGraphData` returns: the
      suggestion overlay only adds links into book nodes, never into
      `kind:v`. */
  lemma ConnectedAgreesWithGraph(books: seq<Book>, t: EdgeToggles, threshold: int,
                                 suggestions: seq<BookSuggestion>, showSuggestions: bool, g: GraphData,
                                 k: AttributeKind, v: string)
    requires AttributeId(k, v) in ValidIds(books, t, threshold)
    requires g.links == AttributeLinks(books, t, ValidIds(books, t, threshold))
                      + (if showSuggestions then SuggestionLinks(suggestions, BookIds(books)) else [])
    ensures (set l | l in g.links && l.target == AttributeId(k, v) :: l.source)
         == (set b | b in GetConnectedBooks(AttributeId(k, v), books) :: BookNodeId(b.id))
  {
    var id := AttributeId(k, v);
    var links := AttributeLinks(books, t, ValidIds(books, t, threshold));
    ConnectedAgreesWithLinks(books, t, threshold, k, v);
    forall l | l in g.links && l.target == id
      ensures l in links
    {
      if l !in links {
        assert showSuggestions && l in SuggestionLinks(suggestions, BookIds(books));
        SuggestionLinkShape(suggestions, BookIds(books), l);
        var s, rid :| s in suggestions && rid in s.relatedBookIds && rid in BookIds(books)
                      && l == GraphLink(SuggestionNodeId(s.id), BookNodeId(rid), Topic);
        BookNotAttribute(rid, k, v);
      }
    }
    assert (set l | l in g.links && l.target == id :: l.source) == (set l | l in links && l.target == id :: l.source);
  }

  /** A value held by some book has a positive total. */
  lemma {:induction false} TotalHolds(books: seq<Book>, k: AttributeKind, v: string, i: int)
    requires 0 <= i < |books| && v in Values(books[i], k)
    ensures Total(books, k, v) > 0
  {
    var init := books[..|books| - 1];
    if i < |books| - 1 {
      assert init[i] == books[i];
      TotalHolds(init, k, v, i);
    } else {
      OccPositive(Values(books[i], k), v);
    }
  }

  /** At threshold 1 the agreement holds for every `kind:v` of an enabled
      kind: a value that no book holds gets no link and no connected book. */
  lemma ConnectedAgreesAtThresholdOne(books: seq<Book>, t: EdgeToggles,
                                      suggestions: seq<BookSuggestion>, showSuggestions: bool, g: GraphData,
                                      k: AttributeKind, v: string)
    requires Enabled(t, k)
    requires g.links == AttributeLinks(books, t, ValidIds(books, t, 1))
                      + (if showSuggestions then SuggestionLinks(suggestions, BookIds(books)) else [])
    ensures (set l | l in g.links && l.target == AttributeId(k, v) :: l.source)
         == (set b | b in GetConnectedBooks(AttributeId(k, v), books) :: BookNodeId(b.id))
  {
    var id := AttributeId(k, v);
    var valid := ValidIds(books, t, 1);
    ValidIdsIff(books, t, 1, k, v);
    if Total(books, k, v) > 0 {
      ConnectedAgreesWithGraph(books, t, 1, suggestions, showSuggestions, g, k, v);
    } else {
      forall l | l in g.links
        ensures l.target != id
      {
        if l in AttributeLinks(books, t, valid) {
          AttributeLinkShape(books, t, valid, l);
          var i, w :| 0 <= i < |books| && w in Values(books[i], l.linkType)
                      && l.source == BookNodeId(books[i].id) && l.target == AttributeId(l.linkType, w);
          AttributeIdInjective(l.linkType, w, k, v);
          if l.target == id {
            TotalHolds(books, k, v, i);
          }
        } else {
          SuggestionLinkShape(suggestions, BookIds(books), l);
          var s, rid :| s in suggestions && rid in s.relatedBookIds && rid in BookIds(books)
                        && l == GraphLink(SuggestionNodeId(s.id), BookNodeId(rid), Topic);
          BookNotAttribute(rid, k, v);
        }
      }
      forall b | b in GetConnectedBooks(id, books)
        ensures false
      {
        ConnectedMembership(k, v, books, b);
        var i :| 0 <= i < |books| && books[i] == b;
        TotalHolds(books, k, v, i);
      }
      assert (set l | l in g.links && l.target == id :: l.source) == {};
      assert (set b | b in GetConnectedBooks(id, books) :: BookNodeId(b.id)) == {};
    }
  }
}
