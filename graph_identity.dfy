/** Node identities of src/graphBuilder.ts: every node id is the string
    `<kind>:<value>`, built by concatenation when the graph is built and
    taken apart again, on the first colon, by `getConnectedBooks`. */
module GraphIdentity {
  import opened Seqs
  import opened Strings
  import opened Library

  /** The kind's name as it appears in node ids and link types. */
  function KindName(k: AttributeKind): (name: string)
    ensures ':' !in name
  {
    match k
    case Author => "author"
    case Topic => "topic"
    case Theme => "theme"
    case Tag => "tag"
  }

  /** The `switch (type)` of `getConnectedBooks`: which kind a name denotes. */
  function KindOfName(name: string): (k: Option<AttributeKind>)
    ensures k.Some? ==> KindName(k.value) == name
    ensures k.None? ==> forall a :: KindName(a) != name
  {
    if name == "author" then Some(Author)
    else if name == "topic" then Some(Topic)
    else if name == "theme" then Some(Theme)
    else if name == "tag" then Some(Tag)
    else None
  }

  /** `${kind}:${value}`, the id of an attribute node. */
  function AttributeId(k: AttributeKind, v: string): string
  {
    KindName(k) + ":" + v
  }

  function BookNodeId(id: string): string
  {
    "book:" + id
  }

  function SuggestionNodeId(id: string): string
  {
    "suggestion:" + id
  }

  /** `const [type, ...nameParts] = id.split(':'); name = nameParts.join(':')`. */
  function ParseNodeId(id: string): (r: (string, string))
    ensures ':' !in r.0
    ensures ':' in id ==> id == r.0 + ":" + r.1
    ensures ':' !in id ==> r == (id, "")
  {
    var parts := Split(id, ":");
    SplitPiecesFree(id, ':');
    JoinSplit(id, ":");
    (parts[0], Join(parts[1..], ":"))
  }

  /** Splitting on the first colon and re-joining the rest gives back the
      prefix and the value verbatim, colons in the value included. */
  lemma ParseNodeIdRoundTrip(prefix: string, v: string)
    requires ':' !in prefix
    ensures ParseNodeId(prefix + ":" + v) == (prefix, v)
  {
    SplitAt(prefix, ':', v);
    assert Split(prefix + ":" + v, ":")[1..] == Split(v, ":");
    JoinSplit(v, ":");
  }

  lemma ParseAttributeId(k: AttributeKind, v: string)
    ensures ParseNodeId(AttributeId(k, v)) == (KindName(k), v)
  {
    ParseNodeIdRoundTrip(KindName(k), v);
  }

  /** An id without a colon is all kind and no value. */
  lemma ParseColonFree(id: string)
    requires ':' !in id
    ensures ParseNodeId(id) == (id, "")
  {
    SplitWithout(id, ':');
  }

  /** A book node's id is never an attribute node's id: the prefixes differ at the first character. */
  lemma BookNotAttribute(id: string, k: AttributeKind, v: string)
    ensures BookNodeId(id) != AttributeId(k, v)
  {
    assert BookNodeId(id)[0] == 'b';
    assert AttributeId(k, v)[0] == KindName(k)[0];
  }

  /** Distinct (kind, value) pairs never share an attribute node id. */
  lemma AttributeIdInjective(k1: AttributeKind, v1: string, k2: AttributeKind, v2: string)
    ensures AttributeId(k1, v1) == AttributeId(k2, v2) <==> k1 == k2 && v1 == v2
  {
    if AttributeId(k1, v1) == AttributeId(k2, v2) {
      ParseAttributeId(k1, v1);
      ParseAttributeId(k2, v2);
      assert KindOfName(KindName(k1)) == Some(k1);
      assert KindOfName(KindName(k2)) == Some(k2);
    }
  }
}
