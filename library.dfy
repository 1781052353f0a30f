/** The records of src/types.ts that the graph builder, the queries and
    the bulk parser read and produce. */
module Library {
  import opened Seqs

  /** A catalogued book: identifier, title and four free-form attribute lists.
      Lists keep the order and the duplicates the user typed. */
  datatype Book = Book(
    id: string,
    title: string,
    authors: seq<string>,
    topics: seq<string>,
    themes: seq<string>,
    tags: seq<string>)

  /** The attribute kinds that can become nodes and links (`AttributeType`). */
  datatype AttributeKind = Author | Topic | Theme | Tag

  /** Which attribute kinds the graph draws. */
  datatype EdgeToggles = EdgeToggles(author: bool, topic: bool, theme: bool, tag: bool)

  /** A suggested book; only the fields the builder reads. */
  datatype BookSuggestion = BookSuggestion(id: string, title: string, relatedBookIds: seq<string>)

  /** The node kinds the builder emits, `suggestion` included. */
  datatype NodeType = BookNode | AttributeNode(kind: AttributeKind) | SuggestionNode

  datatype GraphNode = GraphNode(
    id: string,
    name: string,
    nodeType: NodeType,
    bookId: Option<string>,
    suggestionId: Option<string>,
    val: nat,
    color: string,
    opacity: Option<real>)

  datatype GraphLink = GraphLink(source: string, target: string, linkType: AttributeKind)

  datatype GraphData = GraphData(nodes: seq<GraphNode>, links: seq<GraphLink>)

  /** The book's list for one attribute kind. */
  function Values(b: Book, k: AttributeKind): seq<string>
  {
    match k
    case Author => b.authors
    case Topic => b.topics
    case Theme => b.themes
    case Tag => b.tags
  }

  function Enabled(t: EdgeToggles, k: AttributeKind): bool
  {
    match k
    case Author => t.author
    case Topic => t.topic
    case Theme => t.theme
    case Tag => t.tag
  }

  /** The `COLORS` table, indexed by node type. */
  function Color(t: NodeType): string
  {
    match t
    case BookNode => "#6366f1"
    case AttributeNode(Author) => "#f59e0b"
    case AttributeNode(Topic) => "#10b981"
    case AttributeNode(Theme) => "#ec4899"
    case AttributeNode(Tag) => "#8b5cf6"
    case SuggestionNode => "#6366f1"
  }

  predicate IsBookNode(n: GraphNode) { n.nodeType.BookNode? }
  predicate IsAttributeNode(n: GraphNode) { n.nodeType.AttributeNode? }
  predicate IsSuggestionNode(n: GraphNode) { n.nodeType.SuggestionNode? }

  function NodeIds(nodes: seq<GraphNode>): (ids: seq<string>)
    ensures |ids| == |nodes|
  {
    if |nodes| == 0 then [] else NodeIds(nodes[..|nodes| - 1]) + [nodes[|nodes| - 1].id]
  }

  function Targets(links: seq<GraphLink>): (ts: seq<string>)
    ensures |ts| == |links|
  {
    if |links| == 0 then [] else Targets(links[..|links| - 1]) + [links[|links| - 1].target]
  }

  lemma {:induction false} NodeIdsConcat(a: seq<GraphNode>, b: seq<GraphNode>)
    ensures NodeIds(a + b) == NodeIds(a) + NodeIds(b)
  {
    if |b| > 0 {
      assert (a + b)[..|a + b| - 1] == a + b[..|b| - 1];
      NodeIdsConcat(a, b[..|b| - 1]);
    } else {
      assert a + b == a;
    }
  }

  lemma {:induction false} NodeIdsMember(nodes: seq<GraphNode>, n: GraphNode)
    requires n in nodes
    ensures n.id in NodeIds(nodes)
  {
    if nodes[|nodes| - 1] != n {
      assert nodes == nodes[..|nodes| - 1] + [nodes[|nodes| - 1]];
      NodeIdsMember(nodes[..|nodes| - 1], n);
    }
  }

  lemma {:induction false} TargetsConcat(a: seq<GraphLink>, b: seq<GraphLink>)
    ensures Targets(a + b) == Targets(a) + Targets(b)
  {
    if |b| > 0 {
      assert (a + b)[..|a + b| - 1] == a + b[..|b| - 1];
      TargetsConcat(a, b[..|b| - 1]);
    } else {
      assert a + b == a;
    }
  }
}
