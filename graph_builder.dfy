/** `buildGraphData` of src/graphBuilder.ts.

    The builder makes two passes over the books. The first counts, per
    occurrence, every `kind:value` key of the toggled kinds and keeps the
    keys whose count reaches the threshold. The second emits one node per
    book, one node per valid key the first time a link to it is made, and
    one book-to-attribute link per occurrence of a valid value; an optional
    overlay adds suggestion nodes linked to the books they relate to.

    The pure functions below say what each pass produces; the methods are
    the source's loops, proved to produce exactly that. */
module GraphBuilder {
  import opened Seqs
  import opened Library
  import opened GraphIdentity

  // ---------------------------------------------------------------------
  // First pass: counting

  /** The keys `kind:v` of one list, in list order. */
  function ValueIds(k: AttributeKind, vs: seq<string>): (ids: seq<string>)
    ensures |ids| == |vs|
  {
    if |vs| == 0 then [] else ValueIds(k, vs[..|vs| - 1]) + [AttributeId(k, vs[|vs| - 1])]
  }

  function KindKeys(b: Book, t: EdgeToggles, k: AttributeKind): seq<string>
  {
    if Enabled(t, k) then ValueIds(k, Values(b, k)) else []
  }

  /** The keys one book contributes, in the order the first pass visits them. */
  function BookKeys(b: Book, t: EdgeToggles): seq<string>
  {
    KindKeys(b, t, Author) + KindKeys(b, t, Topic) + KindKeys(b, t, Theme) + KindKeys(b, t, Tag)
  }

  /** Every key the first pass increments, one entry per increment. */
  function CountKeys(books: seq<Book>, t: EdgeToggles): seq<string>
  {
    if |books| == 0 then [] else CountKeys(books[..|books| - 1], t) + BookKeys(books[|books| - 1], t)
  }

  /** Occurrences of `v` in the `k` lists of all books, duplicates included. */
  function Total(books: seq<Book>, k: AttributeKind, v: string): nat
  {
    if |books| == 0 then 0 else Total(books[..|books| - 1], k, v) + Occ(Values(books[|books| - 1], k), v)
  }

  /** The keys that survive the threshold filter. */
  function ValidIds(books: seq<Book>, t: EdgeToggles, threshold: int): set<string>
  {
    set id | id in CountKeys(books, t) && Occ(CountKeys(books, t), id) >= threshold
  }

  /** `attributeBookCounts.get(id) || 0`. */
  function CountOf(m: map<string, nat>, id: string): nat
  {
    if id in m then m[id] else 0
  }

  /** The map holds, for every key of `keys`, its number of occurrences, and nothing else. */
  ghost predicate Tallies(m: map<string, nat>, keys: seq<string>)
  {
    forall id :: (id in m <==> id in keys) && (id in m ==> m[id] == Occ(keys, id))
  }

  lemma TallyStep(m: map<string, nat>, keys: seq<string>, id: string)
    requires Tallies(m, keys)
    ensures Tallies(m[id := CountOf(m, id) + 1], keys + [id])
  {
    OccPositive(keys, id);
    forall x {
      OccAppend(keys, id, x);
    }
  }

  /** One `for (const v of book.<kind>)` loop of the first pass. */
  method TallyValues(counts: map<string, nat>, ghost keys: seq<string>, k: AttributeKind, values: seq<string>)
    returns (r: map<string, nat>)
    requires Tallies(counts, keys)
    ensures Tallies(r, keys + ValueIds(k, values))
  {
    r := counts;
    assert keys + ValueIds(k, values[..0]) == keys;
    for j := 0 to |values|
      invariant Tallies(r, keys + ValueIds(k, values[..j]))
    {
      var id := AttributeId(k, values[j]);
      TallyStep(r, keys + ValueIds(k, values[..j]), id);
      r := r[id := CountOf(r, id) + 1];
      assert values[..j + 1][..j] == values[..j];
      assert keys + ValueIds(k, values[..j + 1]) == keys + ValueIds(k, values[..j]) + [id];
    }
    assert values[..|values|] == values;
  }

  /** `if (edgeToggles.<kind>) for (const v of book.<kind>) …` of the first pass. */
  method TallyKind(counts: map<string, nat>, ghost keys: seq<string>, book: Book, t: EdgeToggles, k: AttributeKind)
    returns (r: map<string, nat>)
    requires Tallies(counts, keys)
    ensures Tallies(r, keys + KindKeys(book, t, k))
  {
    if Enabled(t, k) {
      r := TallyValues(counts, keys, k, Values(book, k));
    } else {
      r := counts;
      assert keys + KindKeys(book, t, k) == keys;
    }
  }

  /** The body of the first pass for one book: authors, topics, themes, tags. */
  method TallyBook(counts: map<string, nat>, ghost keys: seq<string>, book: Book, t: EdgeToggles)
    returns (r: map<string, nat>)
    requires Tallies(counts, keys)
    ensures Tallies(r, keys + BookKeys(book, t))
  {
    ghost var k1, k2, k3 := keys + KindKeys(book, t, Author), keys + KindKeys(book, t, Author) + KindKeys(book, t, Topic),
                            keys + KindKeys(book, t, Author) + KindKeys(book, t, Topic) + KindKeys(book, t, Theme);
    r := TallyKind(counts, keys, book, t, Author);
    r := TallyKind(r, k1, book, t, Topic);
    r := TallyKind(r, k2, book, t, Theme);
    r := TallyKind(r, k3, book, t, Tag);
    BookKeysAfter(keys, book, t);
  }

  lemma BookKeysAfter(keys: seq<string>, book: Book, t: EdgeToggles)
    ensures keys + KindKeys(book, t, Author) + KindKeys(book, t, Topic) + KindKeys(book, t, Theme) + KindKeys(book, t, Tag)
         == keys + BookKeys(book, t)
  {
    var a, b, c, d := KindKeys(book, t, Author), KindKeys(book, t, Topic), KindKeys(book, t, Theme), KindKeys(book, t, Tag);
    AppendAssoc(keys, a + b + c, d);
    AppendAssoc(keys, a + b, c);
    AppendAssoc(keys, a, b);
  }

  /** The first pass: `attributeBookCounts` maps each key of a toggled kind
      to its number of occurrences across all books. */
  method CountAttributes(books: seq<Book>, t: EdgeToggles) returns (counts: map<string, nat>)
    ensures Tallies(counts, CountKeys(books, t))
    ensures forall k, v :: AttributeId(k, v) in counts <==> Enabled(t, k) && Total(books, k, v) > 0
    ensures forall k, v :: AttributeId(k, v) in counts ==> counts[AttributeId(k, v)] == Total(books, k, v)
  {
    counts := map[];
    for i := 0 to |books|
      invariant Tallies(counts, CountKeys(books[..i], t))
    {
      counts := TallyBook(counts, CountKeys(books[..i], t), books[i], t);
      assert books[..i + 1][..i] == books[..i];
    }
    assert books[..|books|] == books;
    TalliesByKind(counts, books, t);
  }

  /** A tally of the counted keys, read per kind and value. */
  lemma TalliesByKind(counts: map<string, nat>, books: seq<Book>, t: EdgeToggles)
    requires Tallies(counts, CountKeys(books, t))
    ensures forall k, v :: AttributeId(k, v) in counts <==> Enabled(t, k) && Total(books, k, v) > 0
    ensures forall k, v :: AttributeId(k, v) in counts ==> counts[AttributeId(k, v)] == Total(books, k, v)
  {
    forall k, v ensures AttributeId(k, v) in counts <==> Enabled(t, k) && Total(books, k, v) > 0 {
      CountKeysOcc(books, t, k, v);
      OccPositive(CountKeys(books, t), AttributeId(k, v));
    }
    forall k, v | AttributeId(k, v) in counts ensures counts[AttributeId(k, v)] == Total(books, k, v) {
      CountKeysOcc(books, t, k, v);
    }
  }

  lemma {:induction false} ValueIdsOcc(k': AttributeKind, vs: seq<string>, k: AttributeKind, v: string)
    ensures Occ(ValueIds(k', vs), AttributeId(k, v)) == if k' == k then Occ(vs, v) else 0
  {
    if |vs| > 0 {
      ValueIdsOcc(k', vs[..|vs| - 1], k, v);
      AttributeIdInjective(k', vs[|vs| - 1], k, v);
    }
  }

  lemma {:induction false} ValueIdsMember(k: AttributeKind, vs: seq<string>, id: string)
    requires id in ValueIds(k, vs)
    ensures exists v :: v in vs && id == AttributeId(k, v)
  {
    var last := vs[|vs| - 1];
    if id != AttributeId(k, last) {
      ValueIdsMember(k, vs[..|vs| - 1], id);
      var v :| v in vs[..|vs| - 1] && id == AttributeId(k, v);
      assert v in vs;
    } else {
      assert last in vs;
    }
  }

  lemma BookKeysOcc(b: Book, t: EdgeToggles, k: AttributeKind, v: string)
    ensures Occ(BookKeys(b, t), AttributeId(k, v)) == if Enabled(t, k) then Occ(Values(b, k), v) else 0
  {
    var id := AttributeId(k, v);
    OccConcat(KindKeys(b, t, Author) + KindKeys(b, t, Topic) + KindKeys(b, t, Theme), KindKeys(b, t, Tag), id);
    OccConcat(KindKeys(b, t, Author) + KindKeys(b, t, Topic), KindKeys(b, t, Theme), id);
    OccConcat(KindKeys(b, t, Author), KindKeys(b, t, Topic), id);
    ValueIdsOcc(Author, b.authors, k, v);
    ValueIdsOcc(Topic, b.topics, k, v);
    ValueIdsOcc(Theme, b.themes, k, v);
    ValueIdsOcc(Tag, b.tags, k, v);
  }

  /** After the first pass the count of `kind:v` is the number of times `v`
      occurs in that kind's lists over all books; an untoggled kind has no keys. */
  lemma {:induction false} CountKeysOcc(books: seq<Book>, t: EdgeToggles, k: AttributeKind, v: string)
    ensures Occ(CountKeys(books, t), AttributeId(k, v)) == if Enabled(t, k) then Total(books, k, v) else 0
  {
    if |books| > 0 {
      var init := books[..|books| - 1];
      CountKeysOcc(init, t, k, v);
      OccConcat(CountKeys(init, t), BookKeys(books[|books| - 1], t), AttributeId(k, v));
      BookKeysOcc(books[|books| - 1], t, k, v);
    }
  }

  /** Every counted key is `kind:v` for a toggled kind. */
  lemma {:induction false} CountKeysShape(books: seq<Book>, t: EdgeToggles, id: string)
    requires id in CountKeys(books, t)
    ensures exists k, v :: id == AttributeId(k, v) && Enabled(t, k)
  {
    var init, b := books[..|books| - 1], books[|books| - 1];
    if id in CountKeys(init, t) {
      CountKeysShape(init, t, id);
    } else {
      assert id in BookKeys(b, t);
      var k :| id in KindKeys(b, t, k);
      ValueIdsMember(k, Values(b, k), id);
    }
  }

  // ---------------------------------------------------------------------
  // Threshold filter

  /** `for (const [id, count] of attributeBookCounts) if (count >= threshold) validAttributes.add(id)`. */
  method FilterByThreshold(counts: map<string, nat>, threshold: int) returns (valid: set<string>)
    ensures valid == set id | id in counts && counts[id] >= threshold
  {
    valid := {};
    var pending := counts.Keys;
    while pending != {}
      invariant pending <= counts.Keys
      invariant valid == set id | id in counts && id !in pending && counts[id] >= threshold
      decreases |pending|
    {
      var id :| id in pending;
      if counts[id] >= threshold {
        valid := valid + {id};
      }
      pending := pending - {id};
    }
  }

  /** `kind:v` survives the threshold exactly when the kind is toggled, `v`
      occurs somewhere, and its occurrence count reaches the threshold. */
  lemma ValidIdsIff(books: seq<Book>, t: EdgeToggles, threshold: int, k: AttributeKind, v: string)
    ensures AttributeId(k, v) in ValidIds(books, t, threshold)
        <==> Enabled(t, k) && Total(books, k, v) > 0 && Total(books, k, v) >= threshold
  {
    CountKeysOcc(books, t, k, v);
    OccPositive(CountKeys(books, t), AttributeId(k, v));
  }

  /** Every valid key is `kind:v` of a toggled kind. */
  lemma ValidIdsShape(books: seq<Book>, t: EdgeToggles, threshold: int, id: string)
    requires id in ValidIds(books, t, threshold)
    ensures exists k, v :: id == AttributeId(k, v) && Enabled(t, k)
                        && Total(books, k, v) > 0 && Total(books, k, v) >= threshold
  {
    CountKeysShape(books, t, id);
    var k, v :| id == AttributeId(k, v) && Enabled(t, k);
    ValidIdsIff(books, t, threshold, k, v);
  }

  /** Raising the threshold never adds a key. */
  lemma ThresholdMonotone(books: seq<Book>, t: EdgeToggles, lo: int, hi: int)
    requires lo <= hi
    ensures ValidIds(books, t, hi) <= ValidIds(books, t, lo)
  {
  }

  // ---------------------------------------------------------------------
  // Second pass: nodes and links

  function BookNodeFor(b: Book): GraphNode
  {
    GraphNode(BookNodeId(b.id), b.title, BookNode, Some(b.id), None, 3, Color(BookNode), None)
  }

  function BookNodes(books: seq<Book>): seq<GraphNode>
  {
    Map(books, BookNodeFor)
  }

  function AttributeNodeFor(k: AttributeKind, v: string, val: nat): GraphNode
  {
    GraphNode(AttributeId(k, v), v, AttributeNode(k), None, None, val, Color(AttributeNode(k)), None)
  }

  function SuggestionNodeFor(s: BookSuggestion): GraphNode
  {
    GraphNode(SuggestionNodeId(s.id), s.title, SuggestionNode, None, Some(s.id), 2, Color(SuggestionNode), Some(0.5))
  }

  function SuggestionNodes(suggestions: seq<BookSuggestion>): seq<GraphNode>
  {
    Map(suggestions, SuggestionNodeFor)
  }

  /** The links from `source` for one list: one per occurrence of a valid value. */
  function ValueLinks(source: string, k: AttributeKind, vs: seq<string>, valid: set<string>): seq<GraphLink>
  {
    if |vs| == 0 then []
    else
      var id := AttributeId(k, vs[|vs| - 1]);
      ValueLinks(source, k, vs[..|vs| - 1], valid) + (if id in valid then [GraphLink(source, id, k)] else [])
  }

  function KindLinks(b: Book, t: EdgeToggles, k: AttributeKind, valid: set<string>): seq<GraphLink>
  {
    if Enabled(t, k) then ValueLinks(BookNodeId(b.id), k, Values(b, k), valid) else []
  }

  function BookLinks(b: Book, t: EdgeToggles, valid: set<string>): seq<GraphLink>
  {
    KindLinks(b, t, Author, valid) + KindLinks(b, t, Topic, valid) + KindLinks(b, t, Theme, valid) + KindLinks(b, t, Tag, valid)
  }

  /** All book-to-attribute links, in emission order. */
  function AttributeLinks(books: seq<Book>, t: EdgeToggles, valid: set<string>): seq<GraphLink>
  {
    if |books| == 0 then [] else AttributeLinks(books[..|books| - 1], t, valid) + BookLinks(books[|books| - 1], t, valid)
  }

  /** The links of one suggestion: one `topic` link per related id that names a known book. */
  function RelatedLinks(source: string, relatedIds: seq<string>, bookIds: set<string>): seq<GraphLink>
  {
    if |relatedIds| == 0 then []
    else
      var rid := relatedIds[|relatedIds| - 1];
      RelatedLinks(source, relatedIds[..|relatedIds| - 1], bookIds)
      + (if rid in bookIds then [GraphLink(source, BookNodeId(rid), Topic)] else [])
  }

  function SuggestionLinks(suggestions: seq<BookSuggestion>, bookIds: set<string>): seq<GraphLink>
  {
    if |suggestions| == 0 then []
    else
      var s := suggestions[|suggestions| - 1];
      SuggestionLinks(suggestions[..|suggestions| - 1], bookIds) + RelatedLinks(SuggestionNodeId(s.id), s.relatedBookIds, bookIds)
  }

  function BookIds(books: seq<Book>): set<string>
  {
    set b | b in books :: b.id
  }

  /** `attributeBookCounts.get(id) || 1`. */
  function CountVal(counts: map<string, nat>, id: string): nat
  {
    if id in counts && counts[id] != 0 then counts[id] else 1
  }

  /** What the second pass keeps true of the attribute nodes emitted so far:
      they are, in first-appearance order, the distinct targets of the links,
      each valid and built from its kind, value and count, and `seen`
      (`attributeNodesSet`) holds exactly their ids. */
  ghost predicate Emitted(nodes: seq<GraphNode>, links: seq<GraphLink>, seen: set<string>,
                          valid: set<string>, counts: map<string, nat>)
  {
    && NodeIds(Filter(nodes, IsAttributeNode)) == Dedup(Targets(links))
    && (forall id :: id in seen <==> id in Targets(links))
    && (forall n :: n in Filter(nodes, IsAttributeNode) ==>
          n.nodeType.AttributeNode? && n.id in valid
          && n == AttributeNodeFor(n.nodeType.kind, n.name, CountVal(counts, n.id)))
  }

  /** The state of the second pass: `nodes`, `links` and `attributeNodesSet`. */
  datatype Emission = Emission(nodes: seq<GraphNode>, links: seq<GraphLink>, seen: set<string>)

  /** The nested `addAttributeNode`: the node for a valid id, the first time only. */
  function AddNode(e: Emission, valid: set<string>, counts: map<string, nat>,
                   id: string, name: string, k: AttributeKind): Emission
  {
    if id !in e.seen && id in valid
    then Emission(e.nodes + [GraphNode(id, name, AttributeNode(k), None, None, CountVal(counts, id), Color(AttributeNode(k)), None)],
                  e.links, e.seen + {id})
    else e
  }

  /** What one `for (const v of book.<kind>)` loop does to the state. */
  function EmitValues(e: Emission, valid: set<string>, counts: map<string, nat>,
                      source: string, k: AttributeKind, vs: seq<string>): Emission
  {
    if |vs| == 0 then e
    else
      var prev := EmitValues(e, valid, counts, source, k, vs[..|vs| - 1]);
      var id := AttributeId(k, vs[|vs| - 1]);
      if id in valid then
        var added := AddNode(prev, valid, counts, id, vs[|vs| - 1], k);
        Emission(added.nodes, added.links + [GraphLink(source, id, k)], added.seen)
      else prev
  }

  function EmitKind(e: Emission, valid: set<string>, counts: map<string, nat>,
                    b: Book, t: EdgeToggles, k: AttributeKind): Emission
  {
    if Enabled(t, k) then EmitValues(e, valid, counts, BookNodeId(b.id), k, Values(b, k)) else e
  }

  /** What one turn of the book loop does to the state. */
  function EmitBook(e: Emission, valid: set<string>, counts: map<string, nat>, b: Book, t: EdgeToggles): Emission
  {
    var withBook := Emission(e.nodes + [BookNodeFor(b)], e.links, e.seen);
    EmitKind(EmitKind(EmitKind(EmitKind(withBook, valid, counts, b, t, Author), valid, counts, b, t, Topic),
                      valid, counts, b, t, Theme), valid, counts, b, t, Tag)
  }

  /** The state after the book loop. */
  function EmitAll(books: seq<Book>, t: EdgeToggles, valid: set<string>, counts: map<string, nat>): Emission
  {
    if |books| == 0 then Emission([], [], {})
    else EmitBook(EmitAll(books[..|books| - 1], t, valid, counts), valid, counts, books[|books| - 1], t)
  }

  /** A further link to an attribute node already emitted keeps `Emitted`. */
  lemma EmitSeen(nodes: seq<GraphNode>, links: seq<GraphLink>, seen: set<string>, valid: set<string>,
                 counts: map<string, nat>, l: GraphLink)
    requires Emitted(nodes, links, seen, valid, counts)
    requires l.target in seen
    ensures Emitted(nodes, links + [l], seen, valid, counts)
  {
    assert (links + [l])[..|links|] == links;
    assert Targets(links + [l]) == Targets(links) + [l.target];
    DedupAppend(Targets(links), l.target);
  }

  /** The first link to a valid attribute comes with its node, which keeps `Emitted`. */
  lemma EmitNew(nodes: seq<GraphNode>, links: seq<GraphLink>, seen: set<string>, valid: set<string>,
                counts: map<string, nat>, source: string, k: AttributeKind, v: string)
    requires Emitted(nodes, links, seen, valid, counts)
    requires AttributeId(k, v) in valid && AttributeId(k, v) !in seen
    ensures Emitted(nodes + [AttributeNodeFor(k, v, CountVal(counts, AttributeId(k, v)))],
                    links + [GraphLink(source, AttributeId(k, v), k)], seen + {AttributeId(k, v)}, valid, counts)
    ensures Filter(nodes + [AttributeNodeFor(k, v, CountVal(counts, AttributeId(k, v)))], IsBookNode) == Filter(nodes, IsBookNode)
    ensures Filter(nodes + [AttributeNodeFor(k, v, CountVal(counts, AttributeId(k, v)))], IsSuggestionNode) == Filter(nodes, IsSuggestionNode)
  {
    var id := AttributeId(k, v);
    var n := AttributeNodeFor(k, v, CountVal(counts, id));
    var l := GraphLink(source, id, k);
    assert (links + [l])[..|links|] == links;
    assert Targets(links + [l]) == Targets(links) + [id];
    DedupAppend(Targets(links), id);
    FilterAppend(nodes, n, IsAttributeNode);
    FilterAppend(nodes, n, IsBookNode);
    FilterAppend(nodes, n, IsSuggestionNode);
    var attrs := Filter(nodes, IsAttributeNode);
    assert (attrs + [n])[..|attrs|] == attrs;
    assert NodeIds(attrs + [n]) == NodeIds(attrs) + [id];
    forall m | m in attrs + [n]
      ensures m.nodeType.AttributeNode? && m.id in valid
              && m == AttributeNodeFor(m.nodeType.kind, m.name, CountVal(counts, m.id))
    {
      if m != n {
        assert m in attrs;
      }
    }
  }

  /** One value loop keeps `Emitted`, appends exactly `ValueLinks`, and adds
      no book or suggestion node. */
  lemma {:induction false} EmitValuesKeeps(e: Emission, valid: set<string>, counts: map<string, nat>,
                                           source: string, k: AttributeKind, vs: seq<string>)
    requires Emitted(e.nodes, e.links, e.seen, valid, counts)
    ensures var r := EmitValues(e, valid, counts, source, k, vs);
            && Emitted(r.nodes, r.links, r.seen, valid, counts)
            && r.links == e.links + ValueLinks(source, k, vs, valid)
            && Filter(r.nodes, IsBookNode) == Filter(e.nodes, IsBookNode)
            && Filter(r.nodes, IsSuggestionNode) == Filter(e.nodes, IsSuggestionNode)
  {
    if |vs| > 0 {
      var init, v := vs[..|vs| - 1], vs[|vs| - 1];
      var prev := EmitValues(e, valid, counts, source, k, init);
      EmitValuesKeeps(e, valid, counts, source, k, init);
      var id := AttributeId(k, v);
      var step := if id in valid then [GraphLink(source, id, k)] else [];
      if id in valid {
        if id in prev.seen {
          EmitSeen(prev.nodes, prev.links, prev.seen, valid, counts, GraphLink(source, id, k));
        } else {
          EmitNew(prev.nodes, prev.links, prev.seen, valid, counts, source, k, v);
        }
      }
      assert ValueLinks(source, k, vs, valid) == ValueLinks(source, k, init, valid) + step;
      AppendAssoc(e.links, ValueLinks(source, k, init, valid), step);
    }
  }

  lemma EmitKindKeeps(e: Emission, valid: set<string>, counts: map<string, nat>, b: Book, t: EdgeToggles, k: AttributeKind)
    requires Emitted(e.nodes, e.links, e.seen, valid, counts)
    ensures var r := EmitKind(e, valid, counts, b, t, k);
            && Emitted(r.nodes, r.links, r.seen, valid, counts)
            && r.links == e.links + KindLinks(b, t, k, valid)
            && Filter(r.nodes, IsBookNode) == Filter(e.nodes, IsBookNode)
            && Filter(r.nodes, IsSuggestionNode) == Filter(e.nodes, IsSuggestionNode)
  {
    if Enabled(t, k) {
      EmitValuesKeeps(e, valid, counts, BookNodeId(b.id), k, Values(b, k));
    } else {
      assert e.links + KindLinks(b, t, k, valid) == e.links;
    }
  }

  lemma EmitBookKeeps(e: Emission, valid: set<string>, counts: map<string, nat>, b: Book, t: EdgeToggles)
    requires Emitted(e.nodes, e.links, e.seen, valid, counts)
    ensures var r := EmitBook(e, valid, counts, b, t);
            && Emitted(r.nodes, r.links, r.seen, valid, counts)
            && r.links == e.links + BookLinks(b, t, valid)
            && Filter(r.nodes, IsBookNode) == Filter(e.nodes, IsBookNode) + [BookNodeFor(b)]
            && Filter(r.nodes, IsSuggestionNode) == Filter(e.nodes, IsSuggestionNode)
  {
    var e0 := Emission(e.nodes + [BookNodeFor(b)], e.links, e.seen);
    BookNodeKeeps(e, valid, counts, b);
    var e1 := EmitKind(e0, valid, counts, b, t, Author);
    var e2 := EmitKind(e1, valid, counts, b, t, Topic);
    var e3 := EmitKind(e2, valid, counts, b, t, Theme);
    EmitKindKeeps(e0, valid, counts, b, t, Author);
    EmitKindKeeps(e1, valid, counts, b, t, Topic);
    EmitKindKeeps(e2, valid, counts, b, t, Theme);
    EmitKindKeeps(e3, valid, counts, b, t, Tag);
    var a1, a2, a3, a4 := KindLinks(b, t, Author, valid), KindLinks(b, t, Topic, valid),
                          KindLinks(b, t, Theme, valid), KindLinks(b, t, Tag, valid);
    AppendAssoc(e.links, a1, a2);
    AppendAssoc(e.links, a1 + a2, a3);
    AppendAssoc(e.links, a1 + a2 + a3, a4);
  }

  /** Pushing a book node leaves the attribute nodes alone. */
  lemma BookNodeKeeps(e: Emission, valid: set<string>, counts: map<string, nat>, b: Book)
    requires Emitted(e.nodes, e.links, e.seen, valid, counts)
    ensures Emitted(e.nodes + [BookNodeFor(b)], e.links, e.seen, valid, counts)
    ensures Filter(e.nodes + [BookNodeFor(b)], IsBookNode) == Filter(e.nodes, IsBookNode) + [BookNodeFor(b)]
    ensures Filter(e.nodes + [BookNodeFor(b)], IsSuggestionNode) == Filter(e.nodes, IsSuggestionNode)
  {
    var attrs := Filter(e.nodes, IsAttributeNode);
    FilterAppend(e.nodes, BookNodeFor(b), IsAttributeNode);
    assert Filter(e.nodes + [BookNodeFor(b)], IsAttributeNode) == attrs + [] == attrs;
    FilterAppend(e.nodes, BookNodeFor(b), IsBookNode);
    FilterAppend(e.nodes, BookNodeFor(b), IsSuggestionNode);
    assert Filter(e.nodes, IsSuggestionNode) + [] == Filter(e.nodes, IsSuggestionNode);
  }

  /** What the book loop produces: one book node per book in order, the
      attribute links of `AttributeLinks`, and attribute nodes that are the
      distinct link targets, each built from its kind, value and count. */
  lemma {:induction false} EmitAllProperties(books: seq<Book>, t: EdgeToggles, valid: set<string>, counts: map<string, nat>)
    ensures var r := EmitAll(books, t, valid, counts);
            && Emitted(r.nodes, r.links, r.seen, valid, counts)
            && r.links == AttributeLinks(books, t, valid)
            && Filter(r.nodes, IsBookNode) == BookNodes(books)
            && Filter(r.nodes, IsSuggestionNode) == []
  {
    if |books| > 0 {
      var init := books[..|books| - 1];
      EmitAllProperties(init, t, valid, counts);
      EmitBookKeeps(EmitAll(init, t, valid, counts), valid, counts, books[|books| - 1], t);
    }
  }

  /** The nested `addAttributeNode`. */
  method AddAttributeNode(nodes: seq<GraphNode>, seen: set<string>, valid: set<string>, counts: map<string, nat>,
                          id: string, name: string, k: AttributeKind)
    returns (nodes': seq<GraphNode>, seen': set<string>)
    ensures forall links :: Emission(nodes', links, seen') == AddNode(Emission(nodes, links, seen), valid, counts, id, name, k)
  {
    nodes', seen' := nodes, seen;
    if !(id in seen) && id in valid {
      seen' := seen + {id};
      nodes' := nodes + [GraphNode(id, name, AttributeNode(k), None, None, CountVal(counts, id), Color(AttributeNode(k)), None)];
    }
  }

  /** One `for (const v of book.<kind>)` loop of the second pass. */
  method LinkValues(nodes: seq<GraphNode>, links: seq<GraphLink>, seen: set<string>, valid: set<string>,
                    counts: map<string, nat>, bookNodeId: string, k: AttributeKind, values: seq<string>)
    returns (nodes': seq<GraphNode>, links': seq<GraphLink>, seen': set<string>)
    ensures Emission(nodes', links', seen') == EmitValues(Emission(nodes, links, seen), valid, counts, bookNodeId, k, values)
  {
    nodes', links', seen' := nodes, links, seen;
    for j := 0 to |values|
      invariant Emission(nodes', links', seen') == EmitValues(Emission(nodes, links, seen), valid, counts, bookNodeId, k, values[..j])
    {
      var attrId := AttributeId(k, values[j]);
      assert values[..j + 1][..j] == values[..j];
      if attrId in valid {
        nodes', seen' := AddAttributeNode(nodes', seen', valid, counts, attrId, values[j], k);
        links' := links' + [GraphLink(bookNodeId, attrId, k)];
      }
    }
    assert values[..|values|] == values;
  }

  /** The book loop of the second pass, with `bookIdSet`. */
  method EmitBooks(books: seq<Book>, t: EdgeToggles, valid: set<string>, counts: map<string, nat>)
    returns (nodes: seq<GraphNode>, links: seq<GraphLink>, bookIdSet: set<string>)
    ensures Emission(nodes, links, EmitAll(books, t, valid, counts).seen) == EmitAll(books, t, valid, counts)
    ensures bookIdSet == BookIds(books)
  {
    nodes, links, bookIdSet := [], [], {};
    var seen: set<string> := {};
    for i := 0 to |books|
      invariant Emission(nodes, links, seen) == EmitAll(books[..i], t, valid, counts)
      invariant bookIdSet == BookIds(books[..i])
    {
      var book := books[i];
      var bookNodeId := BookNodeId(book.id);
      assert books[..i + 1] == books[..i] + [book];
      assert books[..i + 1][..i] == books[..i];
      bookIdSet := bookIdSet + {book.id};
      nodes := nodes + [GraphNode(bookNodeId, book.title, BookNode, Some(book.id), None, 3, Color(BookNode), None)];
      if t.author {
        nodes, links, seen := LinkValues(nodes, links, seen, valid, counts, bookNodeId, Author, book.authors);
      }
      if t.topic {
        nodes, links, seen := LinkValues(nodes, links, seen, valid, counts, bookNodeId, Topic, book.topics);
      }
      if t.theme {
        nodes, links, seen := LinkValues(nodes, links, seen, valid, counts, bookNodeId, Theme, book.themes);
      }
      if t.tag {
        nodes, links, seen := LinkValues(nodes, links, seen, valid, counts, bookNodeId, Tag, book.tags);
      }
    }
    assert books[..|books|] == books;
  }

  /** The suggestion overlay: one node per suggestion, then its links. */
  method AddSuggestions(nodes: seq<GraphNode>, links: seq<GraphLink>, bookIdSet: set<string>,
                        suggestions: seq<BookSuggestion>)
    returns (nodes': seq<GraphNode>, links': seq<GraphLink>)
    ensures nodes' == nodes + SuggestionNodes(suggestions)
    ensures links' == links + SuggestionLinks(suggestions, bookIdSet)
  {
    nodes', links' := nodes, links;
    for i := 0 to |suggestions|
      invariant nodes' == nodes + SuggestionNodes(suggestions[..i])
      invariant links' == links + SuggestionLinks(suggestions[..i], bookIdSet)
    {
      var suggestion := suggestions[i];
      var suggestionNodeId := SuggestionNodeId(suggestion.id);
      assert suggestions[..i + 1][..i] == suggestions[..i];
      nodes' := nodes' + [GraphNode(suggestionNodeId, suggestion.title, SuggestionNode, None, Some(suggestion.id),
                                     2, Color(SuggestionNode), Some(0.5))];
      ghost var links0 := links';
      var related := suggestion.relatedBookIds;
      for j := 0 to |related|
        invariant links' == links0 + RelatedLinks(suggestionNodeId, related[..j], bookIdSet)
      {
        assert related[..j + 1][..j] == related[..j];
        if related[j] in bookIdSet {
          links' := links' + [GraphLink(suggestionNodeId, BookNodeId(related[j]), Topic)];
        }
      }
      assert related[..|related|] == related;
    }
    assert suggestions[..|suggestions|] == suggestions;
  }

  /** `buildGraphData(books, edgeToggles, threshold, suggestions, showSuggestions)`. */
  method BuildGraphData(books: seq<Book>, t: EdgeToggles, threshold: int,
                        suggestions: seq<BookSuggestion>, showSuggestions: bool)
    returns (g: GraphData)
    // one book node per input book, in input order, whatever the toggles and threshold
    ensures Filter(g.nodes, IsBookNode) == BookNodes(books)
    // the attribute nodes are the distinct link targets, in first-appearance order
    ensures NodeIds(Filter(g.nodes, IsAttributeNode)) == Dedup(Targets(AttributeLinks(books, t, ValidIds(books, t, threshold))))
    // each attribute node is built from its kind and value, and its weight is the occurrence count
    ensures forall n :: n in Filter(g.nodes, IsAttributeNode) ==>
              n.nodeType.AttributeNode?
              && n == AttributeNodeFor(n.nodeType.kind, n.name, Total(books, n.nodeType.kind, n.name))
    ensures Filter(g.nodes, IsSuggestionNode) == if showSuggestions then SuggestionNodes(suggestions) else []
    // book-to-attribute links first, then the suggestion links
    ensures g.links == AttributeLinks(books, t, ValidIds(books, t, threshold))
                     + (if showSuggestions then SuggestionLinks(suggestions, BookIds(books)) else [])
    // no dangling link
    ensures forall l :: l in g.links ==> l.source in NodeIds(g.nodes) && l.target in NodeIds(g.nodes)
    // the node order: each book node followed by the attribute nodes it creates, then the overlay
    ensures exists counts :: Tallies(counts, CountKeys(books, t))
              && g.nodes == EmitAll(books, t, ValidIds(books, t, threshold), counts).nodes
                            + (if showSuggestions then SuggestionNodes(suggestions) else [])
  {
    var counts := CountAttributes(books, t);
    var valid := FilterByThreshold(counts, threshold);
    TalliedThreshold(books, t, threshold, counts);
    var nodes, links, bookIdSet := EmitBooks(books, t, valid, counts);
    if showSuggestions {
      nodes, links := AddSuggestions(nodes, links, bookIdSet, suggestions);
    }
    g := GraphData(nodes, links);
    GraphOfParts(books, t, threshold, counts, suggestions, showSuggestions, g);
  }

  /** The graph made of the book loop's state and the optional overlay has
      the properties `BuildGraphData` promises. */
  lemma GraphOfParts(books: seq<Book>, t: EdgeToggles, threshold: int, counts: map<string, nat>,
                     suggestions: seq<BookSuggestion>, showSuggestions: bool, g: GraphData)
    requires Tallies(counts, CountKeys(books, t))
    requires var e := EmitAll(books, t, ValidIds(books, t, threshold), counts);
             && g.nodes == e.nodes + (if showSuggestions then SuggestionNodes(suggestions) else [])
             && g.links == e.links + (if showSuggestions then SuggestionLinks(suggestions, BookIds(books)) else [])
    ensures Filter(g.nodes, IsBookNode) == BookNodes(books)
    ensures NodeIds(Filter(g.nodes, IsAttributeNode)) == Dedup(Targets(AttributeLinks(books, t, ValidIds(books, t, threshold))))
    ensures forall n :: n in Filter(g.nodes, IsAttributeNode) ==>
              n.nodeType.AttributeNode?
              && n == AttributeNodeFor(n.nodeType.kind, n.name, Total(books, n.nodeType.kind, n.name))
    ensures Filter(g.nodes, IsSuggestionNode) == if showSuggestions then SuggestionNodes(suggestions) else []
    ensures g.links == AttributeLinks(books, t, ValidIds(books, t, threshold))
                     + (if showSuggestions then SuggestionLinks(suggestions, BookIds(books)) else [])
    ensures forall l :: l in g.links ==> l.source in NodeIds(g.nodes) && l.target in NodeIds(g.nodes)
  {
    var valid := ValidIds(books, t, threshold);
    var e := EmitAll(books, t, valid, counts);
    EmitAllProperties(books, t, valid, counts);
    WeightsAreTotals(books, t, threshold, counts, Filter(e.nodes, IsAttributeNode));
    var overlay := if showSuggestions then SuggestionNodes(suggestions) else [];
    OverlayFilters(suggestions);
    FilterConcat(e.nodes, overlay, IsBookNode);
    FilterConcat(e.nodes, overlay, IsAttributeNode);
    FilterConcat(e.nodes, overlay, IsSuggestionNode);
    assert Filter(overlay, IsAttributeNode) == [] && Filter(overlay, IsBookNode) == [];
    assert Filter(g.nodes, IsAttributeNode) == Filter(e.nodes, IsAttributeNode) + [] == Filter(e.nodes, IsAttributeNode);
    assert Filter(g.nodes, IsBookNode) == Filter(e.nodes, IsBookNode) + [] == BookNodes(books);
    assert NodeIds(Filter(g.nodes, IsAttributeNode)) == Dedup(Targets(AttributeLinks(books, t, valid)));
    assert Filter(g.nodes, IsSuggestionNode) == overlay;
    assert g.links == AttributeLinks(books, t, valid) + (if showSuggestions then SuggestionLinks(suggestions, BookIds(books)) else []);
    LinkEndpoints(books, t, threshold, suggestions, showSuggestions, g);
  }

  /** Filtering the tally by the threshold yields `ValidIds`. */
  lemma TalliedThreshold(books: seq<Book>, t: EdgeToggles, threshold: int, counts: map<string, nat>)
    requires Tallies(counts, CountKeys(books, t))
    ensures (set id | id in counts && counts[id] >= threshold) == ValidIds(books, t, threshold)
  {
  }

  /** The weight `get(id) || 1` of an emitted attribute node is its occurrence count. */
  lemma WeightsAreTotals(books: seq<Book>, t: EdgeToggles, threshold: int, counts: map<string, nat>, attrs: seq<GraphNode>)
    requires Tallies(counts, CountKeys(books, t))
    requires forall n :: n in attrs ==>
               n.nodeType.AttributeNode? && n.id in ValidIds(books, t, threshold)
               && n == AttributeNodeFor(n.nodeType.kind, n.name, CountVal(counts, n.id))
    ensures forall n :: n in attrs ==>
              n.nodeType.AttributeNode? && n == AttributeNodeFor(n.nodeType.kind, n.name, Total(books, n.nodeType.kind, n.name))
  {
    forall n | n in attrs
      ensures n == AttributeNodeFor(n.nodeType.kind, n.name, Total(books, n.nodeType.kind, n.name))
    {
      var keys := CountKeys(books, t);
      CountKeysOcc(books, t, n.nodeType.kind, n.name);
      OccPositive(keys, n.id);
      assert CountVal(counts, n.id) == Occ(keys, n.id);
    }
  }

  /** Suggestion nodes are neither book nodes nor attribute nodes. */
  lemma OverlayFilters(suggestions: seq<BookSuggestion>)
    ensures Filter(SuggestionNodes(suggestions), IsBookNode) == []
    ensures Filter(SuggestionNodes(suggestions), IsAttributeNode) == []
    ensures Filter(SuggestionNodes(suggestions), IsSuggestionNode) == SuggestionNodes(suggestions)
    ensures Filter([], IsBookNode) == [] && Filter([], IsAttributeNode) == [] && Filter([], IsSuggestionNode) == []
  {
    var sn := SuggestionNodes(suggestions);
    forall n | n in sn ensures IsSuggestionNode(n) {
      MapMemberInv(suggestions, SuggestionNodeFor, n);
    }
    FilterNone(sn, IsBookNode);
    FilterNone(sn, IsAttributeNode);
    FilterAll(sn, IsSuggestionNode);
  }

  lemma NodeInFilter(nodes: seq<GraphNode>, p: GraphNode -> bool, n: GraphNode)
    requires n in Filter(nodes, p)
    ensures n.id in NodeIds(nodes)
  {
    FilterMembership(nodes, p, n);
    NodeIdsMember(nodes, n);
  }

  lemma IdInNodeIds(nodes: seq<GraphNode>, id: string)
    requires id in NodeIds(nodes)
    ensures exists n :: n in nodes && n.id == id
  {
    var last := nodes[|nodes| - 1];
    if id != last.id {
      IdInNodeIds(nodes[..|nodes| - 1], id);
      var n :| n in nodes[..|nodes| - 1] && n.id == id;
      assert n in nodes;
    } else {
      assert last in nodes;
    }
  }

  /** Every link of a built graph starts and ends at one of its nodes. */
  lemma LinkEndpoints(books: seq<Book>, t: EdgeToggles, threshold: int,
                      suggestions: seq<BookSuggestion>, showSuggestions: bool, g: GraphData)
    requires Filter(g.nodes, IsBookNode) == BookNodes(books)
    requires NodeIds(Filter(g.nodes, IsAttributeNode)) == Dedup(Targets(AttributeLinks(books, t, ValidIds(books, t, threshold))))
    requires Filter(g.nodes, IsSuggestionNode) == if showSuggestions then SuggestionNodes(suggestions) else []
    requires g.links == AttributeLinks(books, t, ValidIds(books, t, threshold))
                      + (if showSuggestions then SuggestionLinks(suggestions, BookIds(books)) else [])
    ensures forall l :: l in g.links ==> l.source in NodeIds(g.nodes) && l.target in NodeIds(g.nodes)
  {
    var valid := ValidIds(books, t, threshold);
    var attrLinks := AttributeLinks(books, t, valid);
    forall l | l in g.links
      ensures l.source in NodeIds(g.nodes) && l.target in NodeIds(g.nodes)
    {
      if l in attrLinks {
        AttributeLinkShape(books, t, valid, l);
        var i, v :| 0 <= i < |books| && v in Values(books[i], l.linkType)
                    && l.source == BookNodeId(books[i].id) && l.target == AttributeId(l.linkType, v);
        MapMember(books, BookNodeFor, books[i]);
        NodeInFilter(g.nodes, IsBookNode, BookNodeFor(books[i]));
        TargetsMember(attrLinks, l);
        IdInNodeIds(Filter(g.nodes, IsAttributeNode), l.target);
        var n :| n in Filter(g.nodes, IsAttributeNode) && n.id == l.target;
        NodeInFilter(g.nodes, IsAttributeNode, n);
      } else {
        assert showSuggestions && l in SuggestionLinks(suggestions, BookIds(books));
        SuggestionLinkShape(suggestions, BookIds(books), l);
        var s, rid :| s in suggestions && rid in s.relatedBookIds && rid in BookIds(books)
                      && l == GraphLink(SuggestionNodeId(s.id), BookNodeId(rid), Topic);
        MapMember(suggestions, SuggestionNodeFor, s);
        NodeInFilter(g.nodes, IsSuggestionNode, SuggestionNodeFor(s));
        var b :| b in books && b.id == rid;
        MapMember(books, BookNodeFor, b);
        NodeInFilter(g.nodes, IsBookNode, BookNodeFor(b));
      }
    }
  }

  lemma {:induction false} TargetsMember(links: seq<GraphLink>, l: GraphLink)
    requires l in links
    ensures l.target in Targets(links)
  {
    if links[|links| - 1] != l {
      assert links == links[..|links| - 1] + [links[|links| - 1]];
      TargetsMember(links[..|links| - 1], l);
    }
  }

  // ---------------------------------------------------------------------
  // Properties of the emitted links

  lemma {:induction false} ValueLinksShape(source: string, k: AttributeKind, vs: seq<string>, valid: set<string>, l: GraphLink)
    requires l in ValueLinks(source, k, vs, valid)
    ensures l.source == source && l.linkType == k && l.target in valid
    ensures exists v :: v in vs && l.target == AttributeId(k, v)
  {
    var last := vs[|vs| - 1];
    if l in ValueLinks(source, k, vs[..|vs| - 1], valid) {
      ValueLinksShape(source, k, vs[..|vs| - 1], valid, l);
      var v :| v in vs[..|vs| - 1] && l.target == AttributeId(k, v);
      assert v in vs;
    } else {
      assert last in vs;
    }
  }

  lemma BookLinksKind(b: Book, t: EdgeToggles, valid: set<string>, l: GraphLink)
    requires l in BookLinks(b, t, valid)
    ensures exists k :: l in KindLinks(b, t, k, valid)
  {
    if l in KindLinks(b, t, Author, valid) {
    } else if l in KindLinks(b, t, Topic, valid) {
    } else if l in KindLinks(b, t, Theme, valid) {
    } else {
      assert l in KindLinks(b, t, Tag, valid);
    }
  }

  /** Link integrity: every book-to-attribute link goes from an input book to
      a valid `kind:v` node of a toggled kind, where `v` is in that book's
      list and the link's type is the kind. */
  lemma {:induction false} AttributeLinkShape(books: seq<Book>, t: EdgeToggles, valid: set<string>, l: GraphLink)
    requires l in AttributeLinks(books, t, valid)
    ensures l.target in valid && Enabled(t, l.linkType)
    ensures exists i, v :: 0 <= i < |books| && v in Values(books[i], l.linkType)
                        && l.source == BookNodeId(books[i].id) && l.target == AttributeId(l.linkType, v)
  {
    var init, b := books[..|books| - 1], books[|books| - 1];
    if l in AttributeLinks(init, t, valid) {
      AttributeLinkShape(init, t, valid, l);
      var i, v :| 0 <= i < |init| && v in Values(init[i], l.linkType)
                  && l.source == BookNodeId(init[i].id) && l.target == AttributeId(l.linkType, v);
      assert init[i] == books[i];
    } else {
      assert l in BookLinks(b, t, valid);
      BookLinksKind(b, t, valid, l);
      var k :| l in KindLinks(b, t, k, valid);
      ValueLinksShape(BookNodeId(b.id), k, Values(b, k), valid, l);
      var v :| v in Values(b, k) && l.target == AttributeId(k, v);
      assert books[|books| - 1] == b;
    }
  }

  lemma {:induction false} ValueLinksHas(source: string, k: AttributeKind, vs: seq<string>, valid: set<string>, v: string)
    requires v in vs && AttributeId(k, v) in valid
    ensures GraphLink(source, AttributeId(k, v), k) in ValueLinks(source, k, vs, valid)
  {
    if vs[|vs| - 1] != v {
      assert vs == vs[..|vs| - 1] + [vs[|vs| - 1]];
      ValueLinksHas(source, k, vs[..|vs| - 1], valid, v);
    }
  }

  /** Conversely, every occurrence of a valid value in a toggled list has its link. */
  lemma {:induction false} AttributeLinkPresent(books: seq<Book>, t: EdgeToggles, valid: set<string>,
                                                i: nat, k: AttributeKind, v: string)
    requires i < |books| && v in Values(books[i], k) && Enabled(t, k) && AttributeId(k, v) in valid
    ensures GraphLink(BookNodeId(books[i].id), AttributeId(k, v), k) in AttributeLinks(books, t, valid)
  {
    var init, b := books[..|books| - 1], books[|books| - 1];
    if i < |books| - 1 {
      assert init[i] == books[i];
      AttributeLinkPresent(init, t, valid, i, k, v);
    } else {
      ValueLinksHas(BookNodeId(b.id), k, Values(b, k), valid, v);
      assert KindLinks(b, t, k, valid) == ValueLinks(BookNodeId(b.id), k, Values(b, k), valid);
    }
  }

  lemma {:induction false} ValueLinksTargets(source: string, k: AttributeKind, vs: seq<string>, valid: set<string>)
    ensures Targets(ValueLinks(source, k, vs, valid)) == Keep(ValueIds(k, vs), valid)
  {
    if |vs| > 0 {
      var init, last := vs[..|vs| - 1], vs[|vs| - 1];
      ValueLinksTargets(source, k, init, valid);
      TargetsConcat(ValueLinks(source, k, init, valid),
                    if AttributeId(k, last) in valid then [GraphLink(source, AttributeId(k, last), k)] else []);
    }
  }

  lemma BookLinksTargets(b: Book, t: EdgeToggles, valid: set<string>)
    ensures Targets(BookLinks(b, t, valid)) == Keep(BookKeys(b, t), valid)
  {
    var a1, a2, a3, a4 := KindLinks(b, t, Author, valid), KindLinks(b, t, Topic, valid),
                          KindLinks(b, t, Theme, valid), KindLinks(b, t, Tag, valid);
    var k1, k2, k3, k4 := KindKeys(b, t, Author), KindKeys(b, t, Topic), KindKeys(b, t, Theme), KindKeys(b, t, Tag);
    ValueLinksTargets(BookNodeId(b.id), Author, b.authors, valid);
    ValueLinksTargets(BookNodeId(b.id), Topic, b.topics, valid);
    ValueLinksTargets(BookNodeId(b.id), Theme, b.themes, valid);
    ValueLinksTargets(BookNodeId(b.id), Tag, b.tags, valid);
    TargetsConcat(a1 + a2 + a3, a4);
    TargetsConcat(a1 + a2, a3);
    TargetsConcat(a1, a2);
    KeepConcat(k1 + k2 + k3, k4, valid);
    KeepConcat(k1 + k2, k3, valid);
    KeepConcat(k1, k2, valid);
  }

  /** The second pass visits the same keys as the first, in the same order,
      and links exactly those that are valid. */
  lemma {:induction false} LinkTargetsAreValidKeys(books: seq<Book>, t: EdgeToggles, valid: set<string>)
    ensures Targets(AttributeLinks(books, t, valid)) == Keep(CountKeys(books, t), valid)
  {
    if |books| > 0 {
      var init, b := books[..|books| - 1], books[|books| - 1];
      LinkTargetsAreValidKeys(init, t, valid);
      TargetsConcat(AttributeLinks(init, t, valid), BookLinks(b, t, valid));
      BookLinksTargets(b, t, valid);
      KeepConcat(CountKeys(init, t), BookKeys(b, t), valid);
    }
  }

  /** Links are not de-duplicated: `kind:v` is the target of one link per
      occurrence of `v` in the toggled lists when it is valid, of none otherwise. */
  lemma LinksPerOccurrence(books: seq<Book>, t: EdgeToggles, valid: set<string>, k: AttributeKind, v: string)
    ensures Occ(Targets(AttributeLinks(books, t, valid)), AttributeId(k, v))
            == if Enabled(t, k) && AttributeId(k, v) in valid then Total(books, k, v) else 0
  {
    LinkTargetsAreValidKeys(books, t, valid);
    OccKeep(CountKeys(books, t), valid, AttributeId(k, v));
    CountKeysOcc(books, t, k, v);
  }

  /** Threshold pruning: the built graph has an attribute node `kind:v`
      exactly when the kind is toggled, `v` occurs in some book's list of
      that kind, and its occurrence count reaches the threshold. */
  lemma AttributeNodeIff(books: seq<Book>, t: EdgeToggles, threshold: int, k: AttributeKind, v: string)
    ensures AttributeId(k, v) in Dedup(Targets(AttributeLinks(books, t, ValidIds(books, t, threshold))))
        <==> Enabled(t, k) && Total(books, k, v) > 0 && Total(books, k, v) >= threshold
  {
    var valid := ValidIds(books, t, threshold);
    var id := AttributeId(k, v);
    LinkTargetsAreValidKeys(books, t, valid);
    KeepMembership(CountKeys(books, t), valid, id);
    ValidIdsIff(books, t, threshold, k, v);
  }

  /** The attribute-node ids of a built graph never grow when the threshold rises. */
  lemma AttributeNodesShrink(books: seq<Book>, t: EdgeToggles, lo: int, hi: int, id: string)
    requires lo <= hi
    requires id in Dedup(Targets(AttributeLinks(books, t, ValidIds(books, t, hi))))
    ensures id in Dedup(Targets(AttributeLinks(books, t, ValidIds(books, t, lo))))
  {
    LinkTargetsAreValidKeys(books, t, ValidIds(books, t, hi));
    LinkTargetsAreValidKeys(books, t, ValidIds(books, t, lo));
    KeepMembership(CountKeys(books, t), ValidIds(books, t, hi), id);
    KeepMembership(CountKeys(books, t), ValidIds(books, t, lo), id);
    ThresholdMonotone(books, t, lo, hi);
  }

  lemma {:induction false} RelatedLinksShape(source: string, relatedIds: seq<string>, bookIds: set<string>, l: GraphLink)
    requires l in RelatedLinks(source, relatedIds, bookIds)
    ensures exists rid :: rid in relatedIds && rid in bookIds && l == GraphLink(source, BookNodeId(rid), Topic)
  {
    var last := relatedIds[|relatedIds| - 1];
    if l in RelatedLinks(source, relatedIds[..|relatedIds| - 1], bookIds) {
      RelatedLinksShape(source, relatedIds[..|relatedIds| - 1], bookIds, l);
      var rid :| rid in relatedIds[..|relatedIds| - 1] && rid in bookIds && l == GraphLink(source, BookNodeId(rid), Topic);
      assert rid in relatedIds;
    } else {
      assert last in relatedIds;
    }
  }

  /** Suggestion links are typed `topic` and go from a suggestion to a
      related id that names one of the books; unknown ids get no link. */
  lemma {:induction false} SuggestionLinkShape(suggestions: seq<BookSuggestion>, bookIds: set<string>, l: GraphLink)
    requires l in SuggestionLinks(suggestions, bookIds)
    ensures exists s, rid :: s in suggestions && rid in s.relatedBookIds && rid in bookIds
                          && l == GraphLink(SuggestionNodeId(s.id), BookNodeId(rid), Topic)
  {
    var init, last := suggestions[..|suggestions| - 1], suggestions[|suggestions| - 1];
    if l in SuggestionLinks(init, bookIds) {
      SuggestionLinkShape(init, bookIds, l);
      var s, rid :| s in init && rid in s.relatedBookIds && rid in bookIds
                    && l == GraphLink(SuggestionNodeId(s.id), BookNodeId(rid), Topic);
      assert s in suggestions;
    } else {
      RelatedLinksShape(SuggestionNodeId(last.id), last.relatedBookIds, bookIds, l);
      assert last in suggestions;
    }
  }

  lemma {:induction false} RelatedLinksHas(source: string, relatedIds: seq<string>, bookIds: set<string>, rid: string)
    requires rid in relatedIds && rid in bookIds
    ensures GraphLink(source, BookNodeId(rid), Topic) in RelatedLinks(source, relatedIds, bookIds)
  {
    if relatedIds[|relatedIds| - 1] != rid {
      assert relatedIds == relatedIds[..|relatedIds| - 1] + [relatedIds[|relatedIds| - 1]];
      RelatedLinksHas(source, relatedIds[..|relatedIds| - 1], bookIds, rid);
    }
  }

  /** Every related id that names a known book does get its link. */
  lemma {:induction false} SuggestionLinkPresent(suggestions: seq<BookSuggestion>, bookIds: set<string>, i: nat, rid: string)
    requires i < |suggestions| && rid in suggestions[i].relatedBookIds && rid in bookIds
    ensures GraphLink(SuggestionNodeId(suggestions[i].id), BookNodeId(rid), Topic) in SuggestionLinks(suggestions, bookIds)
  {
    var init := suggestions[..|suggestions| - 1];
    if i < |suggestions| - 1 {
      assert init[i] == suggestions[i];
      SuggestionLinkPresent(init, bookIds, i, rid);
    } else {
      RelatedLinksHas(SuggestionNodeId(suggestions[i].id), suggestions[i].relatedBookIds, bookIds, rid);
    }
  }
}
