# bookgraph core, modelled in Dafny

bookgraph shows a personal library as a force-directed graph. This project models the two
computational parts of the repository and proves properties about them.

The first part is the **graph builder** in `src/graphBuilder.ts`.

- `buildGraphData` turns books into nodes and links:
  - one node per book;
  - a node per author, topic, theme or tag value whose occurrence count reaches the threshold;
  - one link per occurrence of such a value in a book;
  - optionally, a suggestion overlay.
- `findRelatedBooks` lists the books that share an attribute value with a given book.
- `getConnectedBooks` lists the books behind an attribute node, given that node's id.

The second part is the **bulk text parser** in `src/bulkParser.ts`. It turns pasted text into one book per non-blank line. Each line is read in one of four formats, tried in this order:

- `Title | Authors | Topics | Themes | Tags`
- `Title by Authors`, read with a lazy case-insensitive regular expression
- `Title - Authors`
- a bare title

The model is laid out as follows:

- `Seqs` covers `filter`, `map`, occurrence counting and de-duplication.
- `Strings` covers `trim`, `includes`, `split`, `join`, and `toLowerCase` limited to ASCII.
- `Library` holds the records of `src/types.ts`.
- `GraphIdentity` holds the `"<kind>:<value>"` node ids and the first-colon parse.
- `GraphBuilder` and `GraphQueries` cover `src/graphBuilder.ts`.
- `ByPattern` gives JavaScript's backtracking semantics for `/^(.+?)\s+by\s+(.+)$/i`.
- `BulkParser` covers `src/bulkParser.ts`.

Where the source loops and mutates state, the model does the same:

- `buildGraphData`, `findRelatedBooks` and `parseBulkInput` are methods with loops.
- Each method is proved equal to a functional specification: `CountKeys`/`ValidIds`, `EmitAll`, `RelatedIds` or `ParseLines`.
- `ParseLines` takes the line parser as a parameter, so its lemmas hold for any parser; `parseBulkInput` is proved against it with `ParseLine`.
- The properties are then proved about those specifications.
- The pure helpers are functions.

Inputs that the source takes from outside are parameters:

- `uuidv4()` becomes `freshId: nat -> string`. The book built by the `n`-th call gets `freshId(n)`.
- `showSuggestions` and the suggestions list are ordinary inputs.

## Model

| member | source | states |
|---|---|---|
| GraphIdentity.KindName | src/graphBuilder.ts:30-48 | an attribute kind's id prefix never contains a colon |
| GraphIdentity.KindOfName | src/graphBuilder.ts:197-207 | the `switch (type)` recognises exactly the four kind names, and nothing else |
| GraphIdentity.AttributeId | src/graphBuilder.ts:30-48 | the `${kind}:${value}` id; its meaning is stated by `ParseAttributeId` (it parses back to kind name and value) and `AttributeIdInjective` (distinct kind or value, distinct id) |
| GraphIdentity.BookNodeId | src/graphBuilder.ts:81-84 | the `book:${id}` id; `BookNotAttribute` and `GraphQueries.BookPrefixUnknown` state that it is never an attribute id and names no attribute kind |
| GraphIdentity.SuggestionNodeId | src/graphBuilder.ts:136-137 | the `suggestion:${id}` id; `GraphBuilder.OverlayFilters` states that suggestion nodes are neither book nor attribute nodes |
| GraphIdentity.ParseNodeId | src/graphBuilder.ts:193-194 | the type part never contains a colon; an id with a colon is the type, a colon and the rejoined name; a colon-free id is all type with an empty name |
| GraphIdentity.BookNotAttribute | src/graphBuilder.ts:30-48 | a book node id (`book:…`) is never an attribute node id |
| GraphIdentity.ParseNodeIdRoundTrip | src/graphBuilder.ts:193-194 | splitting `prefix + ":" + v` on the first colon and rejoining the rest gives back `(prefix, v)`, colons in `v` included |
| GraphIdentity.ParseAttributeId | src/graphBuilder.ts:193-194 | an attribute node id parses back to its kind name and value |
| GraphIdentity.AttributeIdInjective | src/graphBuilder.ts:30-48 | two attribute ids are equal exactly when kind and value are |
| GraphBuilder.CountOf | src/graphBuilder.ts:31 | `get(id) \|\| 0`; `TallyStep` states that one increment through it keeps the map equal to the occurrence counts |
| GraphBuilder.TallyStep | src/graphBuilder.ts:31 | one `set(id, (get(id) \|\| 0) + 1)` keeps the map equal to the occurrence counts of the keys seen so far |
| GraphBuilder.TallyValues | src/graphBuilder.ts:29-32 | the inner counting loop extends the tally by one key per value of the list |
| GraphBuilder.TallyKind | src/graphBuilder.ts:28-33 | one toggle-guarded counting block adds that kind's keys, or nothing when the toggle is off |
| GraphBuilder.TallyBook | src/graphBuilder.ts:28-51 | the four blocks for one book add the book's keys of every enabled kind |
| GraphBuilder.CountAttributes | src/graphBuilder.ts:24-52 | the counts map holds `kind:v` exactly when the kind is enabled and `v` occurs; its value is the number of occurrences of `v` over all books, duplicates within a book counted |
| GraphBuilder.TalliesByKind | src/graphBuilder.ts:27-52 | the tally, read per kind and value, is the total number of occurrences |
| GraphBuilder.ValueIdsOcc | src/graphBuilder.ts:30 | a list's ids hold `kind:v` as often as the list holds `v`, for its own kind only |
| GraphBuilder.BookKeysOcc | src/graphBuilder.ts:28-51 | a book contributes `kind:v` once per occurrence of `v`, when that kind is enabled |
| GraphBuilder.CountKeysOcc | src/graphBuilder.ts:27-52 | all books together contribute `kind:v` the total number of times, for enabled kinds only |
| GraphBuilder.CountKeysShape | src/graphBuilder.ts:27-52 | every counted key is the id of an enabled kind and some value |
| GraphBuilder.FilterByThreshold | src/graphBuilder.ts:55-60 | the valid set is exactly the counted ids whose count is at least the threshold |
| GraphBuilder.ValidIdsIff | src/graphBuilder.ts:27-60 | `kind:v` is valid exactly when the kind is enabled, `v` occurs and its count reaches the threshold |
| GraphBuilder.ValidIdsShape | src/graphBuilder.ts:55-60 | every valid id is `kind:v` for an enabled kind and a value counted at least `threshold` times |
| GraphBuilder.EmitSeen | src/graphBuilder.ts:95-97 | a link to an already created node keeps every link target backed by a node |
| GraphBuilder.EmitNew | src/graphBuilder.ts:65-76 | creating a valid node the first time keeps the node set, the seen set and the links consistent, and adds no book or suggestion node |
| GraphBuilder.EmitValuesKeeps | src/graphBuilder.ts:93-99 | the loop over one list appends exactly that list's valid links and keeps nodes and links consistent |
| GraphBuilder.EmitKindKeeps | src/graphBuilder.ts:92-100 | a toggle-guarded block appends exactly that kind's valid links, or nothing when it is off |
| GraphBuilder.EmitBookKeeps | src/graphBuilder.ts:80-130 | one book adds its book node, then its valid links of every enabled kind, in source order |
| GraphBuilder.BookNodeKeeps | src/graphBuilder.ts:83-90 | pushing a book node keeps the attribute bookkeeping and extends the book nodes by one |
| GraphBuilder.EmitAllProperties | src/graphBuilder.ts:79-131 | after the book loop, the book nodes are the books in order, no suggestion node has been made, the links are all book-to-attribute links, and every link target has its node |
| GraphBuilder.AddAttributeNode | src/graphBuilder.ts:65-76 | `addAttributeNode` adds the node and its id the first time a valid id is seen, and changes nothing otherwise |
| GraphBuilder.LinkValues | src/graphBuilder.ts:93-99 | the loop over one attribute list computes exactly the specified emission step |
| GraphBuilder.EmitBooks | src/graphBuilder.ts:79-131 | the book loop's nodes and links are those of the specification, and `bookIdSet` is the set of book ids |
| GraphBuilder.AddSuggestions | src/graphBuilder.ts:134-157 | the overlay appends one node per suggestion and one link per related id that is a book id |
| GraphBuilder.BuildGraphData | src/graphBuilder.ts:15-161 | the book nodes are the books in order; the attribute nodes are the distinct link targets in first-appearance order, each weighted by its total count; suggestion nodes appear only when shown; the links are the attribute links then the suggestion links; no link dangles; the node list is each book node followed by the attribute nodes it first creates, then the overlay |
| GraphBuilder.GraphOfParts | src/graphBuilder.ts:15-161 | the counting, threshold, book and suggestion passes put together give the graph described above |
| GraphBuilder.CountVal | src/graphBuilder.ts:72 | `get(id) \|\| 1`; `WeightsAreTotals` states that on every drawn node it gives the total occurrence count, so the fallback never fires |
| GraphBuilder.WeightsAreTotals | src/graphBuilder.ts:72 | every attribute node's `val` is the total occurrence count of its value |
| GraphBuilder.OverlayFilters | src/graphBuilder.ts:137-145 | suggestion nodes are neither book nor attribute nodes |
| GraphBuilder.NodeInFilter | src/graphBuilder.ts:22 | a node picked out by kind is among the graph's node ids |
| GraphBuilder.IdInNodeIds | src/graphBuilder.ts:22 | a node id in the graph belongs to one of its nodes |
| GraphBuilder.LinkEndpoints | src/graphBuilder.ts:97-154 | both ends of every link are node ids of the graph |
| GraphBuilder.TargetsMember | src/graphBuilder.ts:97 | a link's target is among the targets |
| GraphBuilder.ValueLinksShape | src/graphBuilder.ts:93-98 | a link from one list goes from that book to a valid `kind:v` for a value of the list |
| GraphBuilder.AttributeLinkShape | src/graphBuilder.ts:92-130 | every attribute link goes from some book's node to a valid id of an enabled kind and a value of that book |
| GraphBuilder.ValueLinksHas | src/graphBuilder.ts:93-98 | every valid value of the list gets its link |
| GraphBuilder.AttributeLinkPresent | src/graphBuilder.ts:92-130 | every value of an enabled kind that is valid gets a link from its book |
| GraphBuilder.ValueLinksTargets | src/graphBuilder.ts:93-98 | a list's link targets are its ids that are valid, in order |
| GraphBuilder.BookLinksTargets | src/graphBuilder.ts:92-130 | a book's link targets are its counted keys that are valid, in order |
| GraphBuilder.LinkTargetsAreValidKeys | src/graphBuilder.ts:79-131 | the emission pass walks the same keys, in the same order, as the counting pass, keeping the valid ones |
| GraphBuilder.LinksPerOccurrence | src/graphBuilder.ts:92-130 | edges are not de-duplicated: `kind:v` receives one link per occurrence of `v` when valid, none otherwise |
| GraphBuilder.AttributeNodeIff | src/graphBuilder.ts:55-76 | `kind:v` has a node exactly when its kind is enabled and its count is positive and reaches the threshold |
| GraphBuilder.AttributeNodesShrink | src/graphBuilder.ts:57 | raising the threshold never adds an attribute node |
| GraphBuilder.RelatedLinksShape | src/graphBuilder.ts:148-156 | a suggestion's link goes to a related id that is a book id, with type `topic` |
| GraphBuilder.SuggestionLinkShape | src/graphBuilder.ts:134-157 | every overlay link goes from a suggestion node to a book node of one of its related ids |
| GraphBuilder.RelatedLinksHas | src/graphBuilder.ts:148-156 | every related id that is a book id gets its link |
| GraphBuilder.SuggestionLinkPresent | src/graphBuilder.ts:134-157 | every related id of every suggestion that is a book id gets its link |
| GraphQueries.RelatedIdsIff | src/graphBuilder.ts:164-187 | an id is collected exactly when some book with it, other than the query's id, shares an attribute value |
| GraphQueries.FindRelatedBooks | src/graphBuilder.ts:163-190 | the result is `allBooks` filtered by the collected ids; a book is in it exactly when its id differs from the query's and some book with that id shares an author, topic, theme or tag |
| GraphQueries.UniqueMember | src/graphBuilder.ts:189 | with distinct ids, a book is determined by its id |
| GraphQueries.RelatedWhenUnique | src/graphBuilder.ts:163-190 | with distinct ids, the result is the subsequence of other books sharing an attribute value |
| GraphQueries.NotSelfRelated | src/graphBuilder.ts:167 | the query book's id is never collected |
| GraphQueries.SomeIncludedSymmetric | src/graphBuilder.ts:169 | `xs.some(x => ys.includes(x))` is symmetric |
| GraphQueries.RelatedSymmetric | src/graphBuilder.ts:163-190 | with distinct ids, relatedness is mutual |
| GraphQueries.HasAttribute | src/graphBuilder.ts:196-209 | the `switch (type)` test on one book; `ConnectedMembership` states that for `kind:v` it holds exactly when the book's list of that kind contains `v` |
| GraphQueries.GetConnectedBooks | src/graphBuilder.ts:192-210 | the result is never longer than the books, and a book is in it exactly when it is one of the books and its list of the parsed kind holds the parsed name; the exact sequence is stated by `ConnectedByIdentity` (ids `kind:v`), `ConnectedBareKind` (colon-free kind names) and `UnknownKindEmpty` (any other prefix) |
| GraphQueries.ConnectedByIdentity | src/graphBuilder.ts:192-205 | for `kind:v`, the result is the books whose list of that kind contains `v` |
| GraphQueries.ConnectedMembership | src/graphBuilder.ts:196-205 | a book is connected to `kind:v` exactly when it is in the list and its list of that kind holds `v` |
| GraphQueries.ConnectedBareKind | src/graphBuilder.ts:192-207 | a bare kind name such as `author` parses as that kind with the empty name, so its connected books are those whose list of that kind holds the empty string |
| GraphQueries.UnknownKindEmpty | src/graphBuilder.ts:206-207 | an id whose prefix is no attribute kind has no connected books |
| GraphQueries.BookNodeHasNoConnected | src/graphBuilder.ts:192-209 | a book node's id has no connected books |
| GraphQueries.ConnectedAgreesWithLinks | src/graphBuilder.ts:192-210 | for a drawn attribute node, the attribute links into it come from exactly the book nodes of `getConnectedBooks` |
| GraphQueries.ConnectedAgreesWithGraph | src/graphBuilder.ts:192-210 | for a drawn attribute node, the sources of all the graph's links into it, suggestion links included, are exactly the book nodes of `getConnectedBooks` |
| GraphQueries.ConnectedAgreesAtThresholdOne | src/graphBuilder.ts:192-210 | at threshold 1 the same agreement holds for every `kind:v` of an enabled kind, drawn or not: a value no book holds has no links into it and no connected books |
| Strings.TrimStart | src/bulkParser.ts:16 | the leading whitespace run is removed, and the rest starts with a non-whitespace character |
| Strings.TrimEnd | src/bulkParser.ts:16 | the trailing whitespace run is removed, and the rest ends with a non-whitespace character |
| Strings.Trim | src/bulkParser.ts:16 | the result is trimmed, takes its characters from the input, and is empty exactly for all-whitespace input |
| Strings.TrimSlice | src/bulkParser.ts:16 | the result is the slice of the input between a whitespace prefix and a whitespace suffix |
| Strings.TrimPadded | src/bulkParser.ts:102 | trimming a trimmed text wrapped in whitespace gives it back |
| Strings.FindFrom | src/bulkParser.ts:22 | the first occurrence at or after the start, or none at all |
| Strings.Split | src/bulkParser.ts:101 | the first piece runs up to the first separator occurrence, or is the whole text |
| Strings.JoinSplit | src/graphBuilder.ts:193-194 | joining a split with its separator gives back the text |
| Strings.SplitJoin | src/bulkParser.ts:88 | splitting a join on a character the parts lack gives back the parts |
| Strings.SplitPiecesFree | src/bulkParser.ts:101 | the pieces of a split on a character never contain it |
| Strings.ContainsChar | src/bulkParser.ts:22 | `includes` of a one-character string is membership of that character |
| Strings.ToLower | src/bulkParser.ts:26 | lower-casing keeps the length |
| ByPattern.WsRunEnd | src/bulkParser.ts:54 | the greedy `\s+` run from an index: whitespace up to its end, and no whitespace right after |
| ByPattern.MatchStartSound | src/bulkParser.ts:54 | a group 2 start found for a given end of group 1 is a real match |
| ByPattern.MatchStartComplete | src/bulkParser.ts:54 | for a given end of group 1, every match is found, and the reported group 2 start is the latest one (greedy `\s+`) |
| ByPattern.FirstMatchSound | src/bulkParser.ts:54 | the lazy scan reports only real matches |
| ByPattern.FirstMatchComplete | src/bulkParser.ts:54 | the lazy scan finds a match whenever one exists, with the shortest group 1 |
| ByPattern.ByMatch | src/bulkParser.ts:54 | a match leaves a non-empty group 1 and a non-empty group 2 inside the line |
| ByPattern.ByMatchSpec | src/bulkParser.ts:54 | the model of `line.match` fails exactly when no way of matching exists; otherwise it reports a real match with the shortest group 1 and, for it, the longest `\s+` after `by` |
| BulkParser.CleanPieces | src/bulkParser.ts:102-103 | trimmed comma-free pieces, with the empty ones dropped, are clean entries |
| BulkParser.ParseCommaSeparated | src/bulkParser.ts:99-104 | every entry is non-empty, trimmed and comma-free |
| BulkParser.CommaMembership | src/bulkParser.ts:99-104 | the entries are exactly the non-empty trims of the `,`-separated segments |
| BulkParser.ParseCommaRoundTrip | src/bulkParser.ts:99-104 | clean entries joined with `", "`, after any leading whitespace, are read back unchanged |
| BulkParser.CommaJoinRoundTrip | src/bulkParser.ts:99-104 | clean entries joined with `", "` are read back unchanged |
| BulkParser.ListField | src/bulkParser.ts:92-95 | an absent or empty field gives no entries, and any field gives clean entries |
| BulkParser.ParsePipeSeparated | src/bulkParser.ts:87-97 | the book takes the given id, a non-empty trimmed title and clean lists; a line without `\|` gives no authors, topics, themes or tags; the `Untitled` fallback and absent fields are stated by `PipeUntitled`, `PipeMissingFields` and `PipeTwoFields` |
| BulkParser.PipeUntitled | src/bulkParser.ts:88-91 | a blank first field (only whitespace before the first `\|`) gives the title `Untitled` |
| BulkParser.PipeMissingFields | src/bulkParser.ts:88-95 | a line with `n` fields leaves every list from field `n` on empty |
| BulkParser.PipeTwoFields | src/bulkParser.ts:87-97 | `title \| authors` gives the trimmed title (or `Untitled`), the authors of the second field, and no topics, themes or tags |
| BulkParser.ParseByFormat | src/bulkParser.ts:53-73 | the book takes the given id, clean authors and no topics, themes or tags; on a match the title is trimmed |
| BulkParser.ByNoMatch | src/bulkParser.ts:65-72 | when no way of matching the pattern exists, the whole line is the title and there are no authors |
| BulkParser.ParseDashFormat | src/bulkParser.ts:75-85 | the book takes the given id, a trimmed title, clean authors and no topics, themes or tags; without ` - ` the title is the trimmed line and there are no authors |
| BulkParser.ParseLine | src/bulkParser.ts:22-43 | every format gives the book the next id and clean lists; only a line containing the character `\|` can fill topics, themes or tags (`includes('\|')` is read as membership through `ContainsChar`) |
| BulkParser.ByTitle | src/bulkParser.ts:53-73 | on a trimmed non-blank line, the by format's title is non-empty and trimmed |
| BulkParser.DashTitle | src/bulkParser.ts:75-85 | on a trimmed non-blank line, the dash format's title is non-empty and trimmed |
| BulkParser.ParsedTitle | src/bulkParser.ts:22-43 | every non-blank trimmed line gives a non-empty trimmed title |
| BulkParser.ByDispatchMatches | src/bulkParser.ts:26-27 | a trimmed line without line terminators whose lower-cased form contains ` by ` always matches the pattern |
| BulkParser.CutAfterTitle | src/bulkParser.ts:54 | on a line that starts with a title free of whitespace-`by` and then a space, no match ends group 1 inside the title |
| BulkParser.ByMatchBounds | src/bulkParser.ts:54 | in `title by rest`, with no whitespace-`by` inside the title, no match ends group 1 inside the title, and one ending it at the title starts group 2 right after the separator |
| BulkParser.ByRoundTripMatch | src/bulkParser.ts:54 | for `title by rest`, the match is the separator itself |
| BulkParser.ByRoundTrip | src/bulkParser.ts:53-73 | `Title by A, B` is read back as that title and those authors, with empty topics, themes and tags |
| BulkParser.ByCutsAtFirst | src/bulkParser.ts:54-59 | the lazy group 1 cuts at the first ` by `: `Stand by Me by Stephen King` gives title `Stand` and author `Me by Stephen King` |
| BulkParser.ListFieldRoundTrip | src/bulkParser.ts:92-95 | a field holding `", "`-joined clean entries is read back as those entries |
| BulkParser.PaddedField | src/bulkParser.ts:88 | a space-padded joined list trims to the joined list |
| BulkParser.PipeSplit | src/bulkParser.ts:88 | a pipe line splits into its padded fields |
| BulkParser.PaddedTitle | src/bulkParser.ts:88-91 | the space-padded title field trims back to the title |
| BulkParser.PaddedFieldRoundTrip | src/bulkParser.ts:88-95 | a space-padded `", "`-joined field is read back as the entries it joins |
| BulkParser.PipeRoundTrip | src/bulkParser.ts:87-97 | `Title \| Authors \| Topics \| Themes \| Tags` is read back field by field, and any fields after the fifth are ignored |
| BulkParser.NoDashBefore | src/bulkParser.ts:76 | ` - ` cannot start inside a dash-free text that is followed by ` - ` |
| BulkParser.DashTail | src/bulkParser.ts:76 | the piece before a further ` - `, or the whole text, is the second field |
| BulkParser.DashSplit | src/bulkParser.ts:76 | `title - rest` splits into `title`, then `rest` up to any further ` - ` |
| BulkParser.DashRoundTrip | src/bulkParser.ts:75-85 | `Title - A, B` is read back as that title and those authors; segments after a further ` - ` are dropped |
| BulkParser.ParseLinesStep | src/bulkParser.ts:15-47 | one more line adds at most one book, built with the next fresh id |
| BulkParser.ParseBulkInput | src/bulkParser.ts:11-51 | one book per non-blank line, in line order; the `j`-th is the dispatch applied to the trimmed `j`-th line with the `j`-th fresh id, and it has a non-empty title |
| BulkParser.NonBlankLines | src/bulkParser.ts:12 | every kept line has a non-empty trim and holds no `\n` |
| BulkParser.ParseLines | src/bulkParser.ts:15-48 | the loop, for any line parser, pushes at most one book per line; `parseBulkInput` uses the dispatch `ParseLine` |
| BulkParser.ParsedBooks | src/bulkParser.ts:11-51 | over the non-blank lines of the text, one book per line, the `j`-th being the dispatch on the `j`-th trimmed line with the `j`-th fresh id, with a non-empty title |
| BulkParser.ParseLinesTitles | src/bulkParser.ts:15-48 | over non-blank lines, every pushed book has a non-empty title |
| BulkParser.ParseLinesLength | src/bulkParser.ts:15-48 | over non-blank lines, one book is pushed per line |
| BulkParser.ParseLinesAt | src/bulkParser.ts:15-48 | over non-blank lines, the `j`-th book is the line parser applied to the `j`-th trimmed line with the `j`-th fresh id |
| BulkParser.ParseLinesOnePerLine | src/bulkParser.ts:15-48 | over non-blank lines, the books are one per line and the `j`-th gets the `j`-th fresh id |

## Left out

- Storage, React UI, Supabase and network calls are outside the core and are not modelled.
  - The rendering and force-layout coordinates (`x`, `y`, `fx`, `fy`, floating point) are not modelled either.
- The builder code does not merge AI analyses, tag provenance, draw AI connection links, or count distinct books. The model follows the code: it counts every occurrence (`GraphBuilder.LinksPerOccurrence`).
- The optional `Book` fields `year`, `rating`, `dateRead` and `notes` are never read by the core and are not modelled.
- `uuidv4()` is the parameter `freshId`. Uniqueness of the generated ids is the library's promise and is not modelled.
- `COLORS`, the fixed `val` numbers 3 and 2, and the opacity 0.5 are constants. Nothing is proved about them.
- The `|| 1` fallback of `val` is reproduced, but never fires on a valid id.
- `threshold` is a JavaScript number; the model takes an integer. Fractional and `NaN` thresholds are not modelled.
- The source iterates over the counts `Map` in its own order; the model builds the valid set as a set, because only membership is used later.
- JavaScript strings are UTF-16 code units, while the model's characters are Unicode scalar values. All the separators and whitespace involved are single code units, so splitting and trimming agree.
- `toLowerCase` is modelled on ASCII letters only. This is enough for the one use, `includes(' by ')`: no other character lower-cases to a space, `b` or `y`.
- The regular expression's `i` flag is modelled, in the same way, as matching `b`/`B` and `y`/`Y`. Without the `u` flag, JavaScript never folds a non-ASCII character onto an ASCII one.
- The `if (book)` guard in `parseBulkInput` always holds; the model has no branch for it.
- An id with an empty name, such as `author` or `author:`, does not connect to nothing. The code's filter returns the books whose list of that kind holds the empty string, and the model follows the code (`GraphQueries.ConnectedBareKind`; `GraphQueries.ConnectedByIdentity` with `v` empty).
- The suggestion field `related_book_ids` read by the builder is `relatedBookIds` in the model.
- BulkParser.ByRoundTrip: proved for titles that hold no whitespace followed by `by` (either case) followed by whitespace or the title's end. Those are exactly the places where the lazy match could cut the title (see `BulkParser.ByCutsAtFirst`). Titles with line terminators are excluded too, since `.` does not match them.
- BulkParser.DashRoundTrip: proved for titles and authors without any `-`. This is sufficient, not necessary; a title only needs to avoid ` - `.
- BulkParser.PipeRoundTrip: proved for fields padded with single spaces. Other whitespace padding behaves the same but is not stated.
