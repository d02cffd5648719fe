# CITE text microservice: a Dafny model of its citation engine

The CITE microservice answers requests about texts cited by CTS URNs
(`urn:cts:<namespace>:<work>[:<passage>]`). It serves them from a corpus of
`(URN, text)` records and from a catalog of works. This project models the
engine behind its HTTP handlers, in the three revisions 0.1, 0.3 and 0.8 of
`citeMicros-1.1.1_catalog`. The handlers covered are:

- the work listing (`/texts`);
- first, last, previous and next node;
- the URN listing of a passage (`/texts/urns`, `ReturnReff`);
- the passage itself (`/texts/{urn}`, `ReturnPassage`);
- the catalog (`/catalog`).

For each handler the model holds a specification function and a method.
The function gives the reply for a given de-duplicated stem list. The method
does what the Go handler does, step by step: it crops every URN to its work
stem, de-duplicates the stems, picks the work, and builds it with a running
index. It then runs the exact / level / range switches, the forward and
backward index scans, and the node annotation loops. Its `ensures` says that
its reply is the function's value for the stem list it computed. For
`/texts/urns` that function follows the code as written, including the
level-4 branch that filters with the level-3 pattern; the intended listing is
a separate function (see Findings).
`removeDuplicatesUnordered` lists the keys of a Go map, so its order is not
fixed. The method contracts therefore quantify over every de-duplicated
order.

Modules, one per file:

| file | module | what it holds |
|---|---|---|
| strings.dfy | `Strings` | `strings.Split` / `strings.Join` / `strings.Contains` on `seq<char>` |
| collections.dfy | `Collections` | `contains`, `boolcontains`, `removeDuplicatesUnordered`, the index scans, filtering |
| urn.dfy | `CtsUrn` | `isCTSURN`, `isRange`, `splitCTS`, cropping to the work stem, range endpoints |
| levels.dfy | `Levels` | `level1contains` .. `level4contains`: the hand-encoded level patterns |
| works.dfy | `Works` | stem selection (`workindex`) and work building (`runindex`) |
| ranges.dfy | `Ranges` | `startindex` / `endindex` of a range query |
| responses.dfy | `Responses` | response records, the reply of a handler, the 0.8 `recover` |
| navigation.dfy | `Navigation` | annotated nodes (`Index`, `Previous`, `Next`) |
| texts.dfy | `Texts` | the `/texts` handlers |
| properties.dfy | `TextsProperties` | what the `/texts` handlers promise, as lemmas |
| catalog.dfy | `Catalog` | `ParseCatalog`'s filter and `ReturnCatalog` |

A Go panic is modelled as the reply `Aborted`. Panics come from indexing
past the end of a slice, a reversed slice bound, or cropping a URN of fewer
than four fields. 0.8 has a `recover` in `ReturnWorkURNS`, `ReturnFirst` and
`ReturnCatalog`. Those handlers turn a panic into an Exception reading
"Error encountered. …" (`Responses.Recovered`). 0.1's `ReturnCatalog` can
finish without writing anything; that outcome is `Silent`.

The revisions differ only here:

- 0.1's `ParseCatalog` keeps every catalog record.
- 0.1's `ReturnCatalog` validates the raw query under the service name
  `/texts/urns` and answers nothing else.
- 0.3 and 0.8 keep only valid URNs, crop the query to its work plus `":"`, and
  test it for membership.
- 0.8 has the three recovers and reads an eighth catalog field, `Lang`.

The level patterns follow the Go regular expressions
`e + "([:|.]*[0-9|a-z]+)$"`, then `".([0-9|a-z]+)"` once more per level. The
match is unanchored at the start and anchored at the end. An unescaped `.`
matches any character but a newline, and `|` inside a class is a literal
member.

**Catalog membership.** The catalog is described as reflexive: every catalog
entry is found by its own URN. The code makes that true only for entry URNs
of the form `urn:cts:ns:work:`, which have five fields with an empty last one
(`Catalog.CatalogReflexive`). The code crops the query and appends `":"`, so a
four-field entry `urn:cts:ns:work` is never found by its own URN
(`Catalog.FourFieldLookup`, `Catalog.FourFieldEntryNotFound`). The model
follows the code.

## Model

| member | source | states |
|---|---|---|
| CtsUrn.IsCtsUrn | Catalog/citeMicros-1.1.1_catalog_0.8.go:184-204 | isCTSURN: true exactly when the `:`-split has four or five fields, the first being `urn` and the second `cts`; MakeUrnIsCts and CtsUrnIsMade characterise it in both directions |
| CtsUrn.IsRange | Catalog/citeMicros-1.1.1_catalog_0.8.go:172-181 | isRange: true exactly when the `:`-split has a fifth field and that field contains `-` |
| CtsUrn.Crop | Catalog/citeMicros-1.1.1_catalog_0.8.go:592 | the crop has exactly the first four `:`-fields of the URN, and is the URN itself or a prefix of it followed by `:` |
| CtsUrn.SplitCts | Catalog/citeMicros-1.1.1_catalog_0.8.go:142-146 | Stem has the first four fields, Reference is the fifth, and for five fields `Stem + ":" + Reference` gives the URN back |
| CtsUrn.MakeUrnIsCts | Catalog/citeMicros-1.1.1_catalog_0.8.go:184-204 | every URN built as `urn:cts:<ns>:<work>[:<passage>]` from colon-free parts passes isCTSURN |
| CtsUrn.CtsUrnIsMade | Catalog/citeMicros-1.1.1_catalog_0.8.go:184-204 | every string passing isCTSURN is such a URN, with colon-free namespace and work |
| CtsUrn.MakeUrnFields | Catalog/citeMicros-1.1.1_catalog_0.8.go:186 | the `:`-fields of a built URN are exactly its parts |
| CtsUrn.CropColonFields | Catalog/citeMicros-1.1.1_catalog_0.8.go:1537-1538 | a cropped URN plus `":"` has the URN's first four fields and an empty fifth one |
| CtsUrn.FieldsDetermine | Catalog/citeMicros-1.1.1_catalog_0.8.go:186 | two strings with the same `:`-fields are equal |
| CtsUrn.RangeHasTwoPieces | Catalog/citeMicros-1.1.1_catalog_0.8.go:172-181 | a string accepted by isRange has a reference that splits on `-` into at least two pieces, so `ctsrange[1]` exists |
| CtsUrn.RangeEndpoints | Catalog/citeMicros-1.1.1_catalog_0.8.go:980-983 | start and end URNs are the stem plus the first and second `-`-pieces of the reference; further pieces are ignored |
| Collections.Contains | Catalog/citeMicros-1.1.1_catalog_0.8.go:162-170 | `contains` is true exactly when the element is in the list |
| Collections.RemoveDuplicatesUnordered | Catalog/citeMicros-1.1.1_catalog_0.8.go:257-269 | the result has no duplicates and holds exactly the elements of the input |
| Collections.Dedup | Catalog/citeMicros-1.1.1_catalog_0.8.go:257-269 | a reference de-duplication that meets the same contract, so a de-duplicated list always exists |
| Collections.FirstTrue | Catalog/citeMicros-1.1.1_catalog_0.8.go:998-1003 | the forward scan with `break` finds the first `true`, or 0 when there is none |
| Collections.LastTrue | Catalog/citeMicros-1.1.1_catalog_0.8.go:1056-1061 | the backward scan with `break` finds the last `true`, or 0 when there is none |
| Collections.ScanLastIndex | Catalog/citeMicros-1.1.1_catalog_0.8.go:775-780 | the `requestedIndex` loop gives the last position of the query, or 0 when it is absent |
| Collections.FirstWhere | Catalog/citeMicros-1.1.1_catalog_0.8.go:992-1004 | the first element satisfying the test, none before it; 0 when none does |
| Collections.LastWhere | Catalog/citeMicros-1.1.1_catalog_0.8.go:1050-1062 | the last element satisfying the test, none after it; 0 when none does |
| Collections.LastIndexOf | Catalog/citeMicros-1.1.1_catalog_0.8.go:775-780 | the last position holding the element, none after it; 0 when absent |
| Collections.Positions | Catalog/citeMicros-1.1.1_catalog_0.8.go:1113-1122 | the flagged positions, increasing, each flagged, and every flagged position listed |
| Collections.Filter | Catalog/citeMicros-1.1.1_catalog_0.8.go:1113-1122 | the flagged elements in order: element k is the element at the k-th flagged position |
| Collections.FilterSnoc | Catalog/citeMicros-1.1.1_catalog_0.8.go:1117-1121 | appending one element appends it to the filtered list exactly when it is kept |
| Collections.PositionsBounds | Catalog/citeMicros-1.1.1_catalog_0.8.go:998-1003 | nothing before the first flagged position, or after the last one, is flagged |
| Collections.NoneKept | Catalog/citeMicros-1.1.1_catalog_0.8.go:1150-1162 | when no element is flagged, the filtered list is empty |
| Collections.SomeKept | Catalog/citeMicros-1.1.1_catalog_0.8.go:1150-1162 | a flagged element is kept, so the filtered list is not empty |
| Levels.Tail | Catalog/citeMicros-1.1.1_catalog_0.8.go:217-254 | the text the part of a level-N pattern after the query matches before `$`: at level 1 a run of `[:|.]` characters then a non-empty word of `[0-9|a-z]` characters (with `|` a literal member); each further level adds one character other than a newline (the unescaped `.`) and one more word |
| Levels.LevelMatch | Catalog/citeMicros-1.1.1_catalog_0.8.go:217-254 | `regexp.MatchString(e + tail + "$", node)`: at some offset of the node, the query text matches (its `.` matching any character but a newline), and the rest of the node is a tail of that level |
| Levels.MatchFlags | Catalog/citeMicros-1.1.1_catalog_0.8.go:217-222 | the `match` slice holds, per node, whether the level pattern matches it |
| Levels.LevelContains | Catalog/citeMicros-1.1.1_catalog_0.8.go:217-254 | `levelNcontains` is true exactly when some node matches the level-N pattern |
| Levels.FindLowestLevel | Catalog/citeMicros-1.1.1_catalog_0.8.go:1111-1165 | the level `switch` selects the lowest level 1..4 at which some node matches, or none |
| Levels.LowestLevel | Catalog/citeMicros-1.1.1_catalog_0.8.go:1269-1352 | the chosen level is matched by some node and no lower level is |
| Levels.LevelOneChild | Catalog/citeMicros-1.1.1_catalog_0.8.go:220 | a query followed by any run of `[:|.]` and a word matches at level 1, so `…:1` matches `…:12` as well as `…:1.2` |
| Levels.QueryThenTail | Catalog/citeMicros-1.1.1_catalog_0.8.go:220 | a node made of the query and a tail of level L matches at level L |
| Levels.DeeperTail | Catalog/citeMicros-1.1.1_catalog_0.8.go:227-254 | each further level adds one character and one word to the tail |
| Levels.MatchIsLonger | Catalog/citeMicros-1.1.1_catalog_0.8.go:220 | a level match makes the node longer than the query, so an exact node never matches itself at a level |
| Levels.PatternMatchesItself | Catalog/citeMicros-1.1.1_catalog_0.8.go:220 | helper for QueryThenTail: the query part of the pattern matches the query's own text |
| Levels.TailNotEmpty | Catalog/citeMicros-1.1.1_catalog_0.8.go:220 | helper for MatchIsLonger: a tail ends in a non-empty word, so it is never empty |
| Levels.TailDots | Catalog/citeMicros-1.1.1_catalog_0.8.go:217-254 | past its leading separators, a level-L tail holds fewer than L dots |
| Levels.NotShallowTail | Catalog/citeMicros-1.1.1_catalog_0.8.go:217-254 | a string with too many dots after its first word character is no tail of that level |
| Levels.SiblingAsChildExample | Catalog/citeMicros-1.1.1_catalog_0.3.go:216-253 | `urn:cts:ns:w:1` matches both `urn:cts:ns:w:1.2` and `urn:cts:ns:w:12` at level 1 |
| Works.Selects | Catalog/citeMicros-1.1.1_catalog_0.8.go:596-605 | the test that sets `workindex`: the query contains the stem, and either equals it or contains the stem followed by `:` |
| Works.SelectsIff | Catalog/citeMicros-1.1.1_catalog_0.8.go:596-605 | a stem is selected exactly when the query equals it or contains it followed by `:` |
| Works.StemIndex | Catalog/citeMicros-1.1.1_catalog_0.1.go:506-522 | `workindex` points to the last selected stem, with no selected stem after it; it is 0 when no stem is selected |
| Works.FindWorkIndex | Catalog/citeMicros-1.1.1_catalog_0.8.go:595-607 | the `workindex` loop computes that index |
| Works.WorkOf | Catalog/citeMicros-1.1.1_catalog_0.1.go:524-534 | the work holds, in input order, exactly the records whose crop is the stem, with `Index` equal to 1..n |
| Works.BuildWork | Catalog/citeMicros-1.1.1_catalog_0.8.go:614-624 | the `runindex` loop builds that work |
| Works.CropUrns | Catalog/citeMicros-1.1.1_catalog_0.8.go:590-593 | every URN is cropped to its stem; it fails exactly when some URN has fewer than four fields |
| Works.Crops | Catalog/citeMicros-1.1.1_catalog_0.8.go:590-593 | one stem per record |
| Works.Locate | Catalog/citeMicros-1.1.1_catalog_0.8.go:579-625 | a located work satisfies the work invariant |
| Works.LocateWork | Catalog/citeMicros-1.1.1_catalog_0.8.go:579-625 | the common prologue: validation, cropping, de-duplication, selection, building |
| Works.SelectWork | Catalog/citeMicros-1.1.1_catalog_0.8.go:595-625 | selection and building give the located work |
| Works.LocateIsFound | Catalog/citeMicros-1.1.1_catalog_0.8.go:612-625 | with a selected stem, the located work is that stem's work |
| Works.LocateFound | Catalog/citeMicros-1.1.1_catalog_0.1.go:506-522 | a work is found exactly when some corpus stem is selected by the query; it is then the work of a selected corpus stem and has at least one node |
| Ranges.RangeStart | Catalog/citeMicros-1.1.1_catalog_0.8.go:985-1042 | start is the last exact occurrence, else the first node matching at the lowest level, else 0 |
| Ranges.RangeEnd | Catalog/citeMicros-1.1.1_catalog_0.8.go:1043-1100 | end is the last exact occurrence, else the last node matching at the lowest level, else n-1 |
| Ranges.ResolveStart | Catalog/citeMicros-1.1.1_catalog_0.8.go:985-1042 | the `startindex` switch computes RangeStart |
| Ranges.ResolveEnd | Catalog/citeMicros-1.1.1_catalog_0.8.go:1043-1100 | the `endindex` switch computes RangeEnd |
| Ranges.ExactEndpoints | Catalog/citeMicros-1.1.1_catalog_0.8.go:985-1101 | with both endpoints unique nodes at a <= b, the range is nodes a..b, its length is b-a+1, and it runs from the start URN to the end URN |
| Responses.Recovered | Catalog/citeMicros-1.1.1_catalog_0.8.go:551-561 | the `recover` leaves a normal reply alone and turns a panic into an Exception carrying "Error encountered" |
| Navigation.Annotated | Catalog/citeMicros-1.1.1_catalog_0.8.go:1476-1489 | a node's `Index` is its 1-based position, and Previous and Next are the adjacent nodes, or `""` at the ends of the work |
| Navigation.NodesAtSnoc | Catalog/citeMicros-1.1.1_catalog_0.8.go:1275-1287 | appending a position appends its annotated node |
| Navigation.NodesAtStep | Catalog/citeMicros-1.1.1_catalog_0.8.go:1275-1287 | examining one more position appends its annotated node exactly when the node is kept |
| Navigation.NodesAtKept | Catalog/citeMicros-1.1.1_catalog_0.8.go:1269-1289 | the nodes at the kept positions are the kept nodes of the work, each annotated at its position, in increasing sequence, with no kept node missing |
| Navigation.AnnotateMatching | Catalog/citeMicros-1.1.1_catalog_0.8.go:1269-1289 | the `matchingNodes` loop gives the annotated nodes matching at the level, in work order |
| Navigation.AnnotateRange | Catalog/citeMicros-1.1.1_catalog_0.8.go:1476-1489 | the `rangeNodes` loop gives the annotated nodes start..end |
| Texts.Unlocated | Catalog/citeMicros-1.1.1_catalog_0.8.go:579-612 | the reply of a node handler when no work is located: "<q> is not valid CTS." for a query that fails isCTSURN, a panic when some corpus URN has fewer than four fields, and "No results for <q>" when no stem is selected |
| Texts.Listing | Catalog/citeMicros-1.1.1_catalog_0.1.go:336-340 | one entry per corpus URN |
| Texts.ReturnWorkUrns | Catalog/citeMicros-1.1.1_catalog_0.8.go:490-534 | Success with every URN cropped to its stem plus `":"`, each once; a URN of fewer than four fields panics, and 0.8 recovers |
| Texts.FirstOfWork | Catalog/citeMicros-1.1.1_catalog_0.8.go:625-630 | Success with the work's first node: its URN and text, Next the second URN and Index 1; a one-node work panics on `URN[1]` |
| Texts.First | Catalog/citeMicros-1.1.1_catalog_0.8.go:549-637 | the /texts/first reply for a stem list: the Unlocated replies, or FirstOfWork of the located work; in 0.8 a panic becomes the "Error encountered" Exception with an empty requestURN |
| Texts.ReturnFirst | Catalog/citeMicros-1.1.1_catalog_0.8.go:549-637 | the reply is that of the first-node specification for the stem list computed, with the 0.8 recover |
| Texts.LastOfWork | Catalog/citeMicros-1.1.1_catalog_0.8.go:700-705 | Success with the work's last node n: its URN and text, Previous the URN before it and Index n; a one-node work panics on `URN[n-2]` |
| Texts.Last | Catalog/citeMicros-1.1.1_catalog_0.8.go:639-711 | the /texts/last reply for a stem list: the Unlocated replies, or LastOfWork of the located work; ReturnLast has no recover |
| Texts.ReturnLast | Catalog/citeMicros-1.1.1_catalog_0.8.go:639-711 | the reply is that of the last-node specification for the stem list computed |
| Texts.PrevOfWork | Catalog/citeMicros-1.1.1_catalog_0.8.go:774-804 | for the last occurrence idx of the query: no node at idx 0; otherwise node idx-1 with Next the query and Previous node idx-2 when idx-1 > 0; "Could not find node to <q> in source." when the query is not a node of the work |
| Texts.Prev | Catalog/citeMicros-1.1.1_catalog_0.8.go:713-811 | the /texts/previous reply for a stem list: the Unlocated replies, or PrevOfWork of the located work |
| Texts.PrevInWork | Catalog/citeMicros-1.1.1_catalog_0.8.go:775-805 | the `requestedIndex` scan and switch give the previous-node reply |
| Texts.ReturnPrev | Catalog/citeMicros-1.1.1_catalog_0.8.go:713-811 | the reply is that of the previous-node specification for the stem list computed |
| Texts.NextOfWork | Catalog/citeMicros-1.1.1_catalog_0.8.go:874-904 | for the last occurrence idx of the query: no node at the last position; otherwise node idx+1 with Previous the query and Next node idx+2 when idx+1 is not last; "Could not find node to <q> in source." when the query is not a node of the work |
| Texts.Next | Catalog/citeMicros-1.1.1_catalog_0.8.go:813-911 | the /texts/next reply for a stem list: the Unlocated replies, or NextOfWork of the located work |
| Texts.NextInWork | Catalog/citeMicros-1.1.1_catalog_0.8.go:875-905 | the `requestedIndex` scan and switch give the next-node reply |
| Texts.ReturnNext | Catalog/citeMicros-1.1.1_catalog_0.8.go:813-911 | the reply is that of the next-node specification for the stem list computed |
| Texts.CollectMatching | Catalog/citeMicros-1.1.1_catalog_0.8.go:1112-1123 | the `matchingURNs` loop keeps exactly the matching URNs, in work order |
| Texts.ReffOfWorkAsWritten | Catalog/citeMicros-1.1.1_catalog_0.8.go:978-1165 | the listing as written: for a range, the URNs from the resolved start through the resolved end, or a panic when start > end + 1; an exact node lists itself; otherwise the URNs matching at the lowest matching level, where level 4 filters with the level-3 pattern; "Couldn't find URN." when no level matches |
| Texts.ReffOfWork | Catalog/citeMicros-1.1.1_catalog_0.8.go:1150-1162 | the corrected listing: the same, except that level 4 filters with the level-4 pattern (see Findings) |
| Texts.Reff | Catalog/citeMicros-1.1.1_catalog_0.8.go:913-1173 | the /texts/urns reply for a stem list: "<q> is not valid CTS.", the crop panic, "No results for <q>", or ReffOfWorkAsWritten of the located work |
| Texts.ReffInWork | Catalog/citeMicros-1.1.1_catalog_0.8.go:978-1165 | the range, exact and level switches give the listing as written, including the level-4 branch that filters with the level-3 pattern (see Findings) |
| Texts.RangeReffInWork | Catalog/citeMicros-1.1.1_catalog_0.8.go:979-1106 | for a range query the listing is the work's URNs from the resolved start through the resolved end; a start more than one past the end makes the slice panic |
| Texts.LevelReffInWork | Catalog/citeMicros-1.1.1_catalog_0.8.go:1111-1164 | for a URN the work does not hold: at lowest level 1 to 3 every URN matching at that level, at level 4 every URN matching the level-3 pattern (none), and the "Couldn't find URN." exception when no level matches |
| Texts.ReturnReff | Catalog/citeMicros-1.1.1_catalog_0.8.go:913-1173 | the reply is Reff, the listing as written, for the stem list computed |
| Texts.ExactPassage | Catalog/citeMicros-1.1.1_catalog_0.8.go:1244-1268 | the node at idx with its text and Index; Next omitted at the first node, Previous omitted at the last; a one-node work panics on `URN[1]` |
| Texts.PassageOfWork | Catalog/citeMicros-1.1.1_catalog_0.8.go:1237-1494 | the exact node, else the annotated nodes matching at the lowest matching level, else for a range the annotated nodes from start through end (or a panic when start > end + 1), else "Could not find node to <q> in source." |
| Texts.Passage | Catalog/citeMicros-1.1.1_catalog_0.8.go:1176-1501 | the /texts reply for a stem list: the Unlocated replies, or PassageOfWork of the located work |
| Texts.PassageInWork | Catalog/citeMicros-1.1.1_catalog_0.8.go:1237-1494 | exact, then levels 1..4, then range, else "Could not find node" |
| Texts.ReturnPassage | Catalog/citeMicros-1.1.1_catalog_0.8.go:1176-1501 | the reply is that of the passage specification for the stem list computed |
| TextsProperties.UrnsOf | Catalog/citeMicros-1.1.1_catalog_0.8.go:1286 | the URN of each node, in order |
| TextsProperties.ListingEntries | Catalog/citeMicros-1.1.1_catalog_0.8.go:519-523 | every listed entry is a corpus stem (the first four fields of some corpus URN) plus an empty fifth field; every stem is listed; none is listed twice |
| TextsProperties.EntryOrigin | Catalog/citeMicros-1.1.1_catalog_0.8.go:519-522 | each listing entry comes from some corpus record |
| TextsProperties.FirstIsFirstRecord | Catalog/citeMicros-1.1.1_catalog_0.3.go:572-577 | /texts/first answers with the first corpus record of the work, with sequence 1 and Next equal to the work's second record; no record of the work lies before it or between the two; a one-node work panics, and 0.8 recovers |
| TextsProperties.LastIsLastRecord | Catalog/citeMicros-1.1.1_catalog_0.3.go:647-652 | /texts/last on the work of a stem answers with the last corpus record of that work, with sequence n and Previous equal to the record before it; no record of the work lies after it or between the two; a one-node work panics |
| TextsProperties.LastOfLocated | Catalog/citeMicros-1.1.1_catalog_0.8.go:639-711 | for a located query, /texts/last answers from the located work, which is the work built for its stem |
| TextsProperties.LastTwoPositions | Catalog/citeMicros-1.1.1_catalog_0.3.go:647-652 | no record after the last one of the work, or between its last two, belongs to the work |
| TextsProperties.PrevNeighbour | Catalog/citeMicros-1.1.1_catalog_0.3.go:721-751 | previous of the last occurrence idx is empty exactly when idx is 0; otherwise it is node idx-1, with Next equal to the query and Previous present only when idx >= 2; a query that is not a node gives "Could not find node" |
| TextsProperties.NextNeighbour | Catalog/citeMicros-1.1.1_catalog_0.3.go:821-851 | next is empty exactly when idx is n-1; otherwise it is node idx+1, with Previous equal to the query and Next present only when idx+2 <= n-1; a query that is not a node gives "Could not find node" |
| TextsProperties.PrevNextInverse | Catalog/citeMicros-1.1.1_catalog_0.3.go:721-851 | with distinct node URNs, next of node i is node i+1 and previous of node i+1 is node i; previous of the first node and next of the last node are empty |
| TextsProperties.DistinctLastIndex | Catalog/citeMicros-1.1.1_catalog_0.8.go:775-780 | without duplicates, the last occurrence of the i-th URN is i |
| TextsProperties.ExactPassageNode | Catalog/citeMicros-1.1.1_catalog_0.3.go:1190-1214 | an exact passage is the annotated node at the last occurrence, with Previous left out at the start and Next at the end; a one-node work panics |
| TextsProperties.LevelPassage | Catalog/citeMicros-1.1.1_catalog_0.8.go:1269-1352 | a non-node query gets exactly the nodes matching at its lowest level, in work order, each annotated with its position and neighbours |
| TextsProperties.RangePassage | Catalog/citeMicros-1.1.1_catalog_0.8.go:1353-1490 | a range passage holds end-start+1 nodes, node k being node start+k with its 1-based position and its neighbours; a start past end+1 panics |
| TextsProperties.RangeNodesAdjacent | Catalog/citeMicros-1.1.1_catalog_0.8.go:1476-1489 | range node k is node start+k of the work, with its text, its 1-based position and its adjacent nodes |
| TextsProperties.PassageNotFound | Catalog/citeMicros-1.1.1_catalog_0.3.go:1189-1440 | "Could not find node" is returned exactly when the query is not a node, matches at no level and is not a range |
| TextsProperties.ReffAgreesWithPassage | Catalog/citeMicros-1.1.1_catalog_0.8.go:1108-1164 | for a non-range query: an exact node gives `[query]`; no match gives "Couldn't find URN."; otherwise the listing is the URNs of the passage's nodes, and is not empty |
| TextsProperties.AsWrittenDiffersAtLevelFour | Catalog/citeMicros-1.1.1_catalog_0.8.go:1150-1162 | the handler as written and the corrected one answer alike except on non-range, non-node queries whose lowest level is 4 |
| TextsProperties.MatchingUrns | Catalog/citeMicros-1.1.1_catalog_0.8.go:1112-1123 | the URNs of the matching nodes are the matching URNs |
| TextsProperties.ReffLevelFourEmpty | Catalog/citeMicros-1.1.1_catalog_0.8.go:1150-1162 | a query whose lowest level is 4 gets Success with an empty list, while the passage has nodes |
| TextsProperties.ReffLevelFourExample | Catalog/citeMicros-1.1.1_catalog_0.8.go:1150-1162 | for the node `urn:cts:ns:w:1.1.1.1.1` and the query `urn:cts:ns:w:1`, the lowest level is 4, the listing is empty and the passage is not |
| TextsProperties.ExampleNotRange | Catalog/citeMicros-1.1.1_catalog_0.8.go:172-181 | the query `urn:cts:ns:w:1` is not a range |
| TextsProperties.ExampleLevel | Catalog/citeMicros-1.1.1_catalog_0.8.go:217-254 | that query first matches that node at level 4 |
| TextsProperties.ExampleMatch | Catalog/citeMicros-1.1.1_catalog_0.8.go:247-254 | the node matches the query at level 4 |
| TextsProperties.ExampleNoMatch | Catalog/citeMicros-1.1.1_catalog_0.8.go:217-244 | the node does not match the query at levels 1 to 3 |
| TextsProperties.FourLevelTail | Catalog/citeMicros-1.1.1_catalog_0.8.go:250 | `.1.1.1.1` is a level-4 tail |
| TextsProperties.ShallowTails | Catalog/citeMicros-1.1.1_catalog_0.8.go:217-244 | `.1.1.1.1` is no tail of levels 1 to 3 |
| TextsProperties.OnlyAtStart | Catalog/citeMicros-1.1.1_catalog_0.8.go:220 | a dot-free query whose first character occurs nowhere else in the node can match only at the start |
| TextsProperties.RangeReffAgreesWithPassage | Catalog/citeMicros-1.1.1_catalog_0.8.go:979-1106 | a range listing is `URN[start..end]`, of length end-start+1, and agrees with the passage when the passage takes its range branch; a start past end+1 panics |
| TextsProperties.RangeNodeUrns | Catalog/citeMicros-1.1.1_catalog_0.8.go:1476-1489 | the URNs of the range nodes are `URN[start..end]` |
| Catalog.Kept | Catalog/citeMicros-1.1.1_catalog_0.8.go:466-468 | the catalog rows ParseCatalog keeps: every row in 0.1, and from 0.3 on the rows whose URN passes isCTSURN, in input order |
| Catalog.KeptSnoc | Catalog/citeMicros-1.1.1_catalog_0.8.go:466-468 | one more row is kept exactly when the revision keeps every row or its URN is valid |
| Catalog.KeptStep | Catalog/citeMicros-1.1.1_catalog_0.8.go:466-468 | the same, for the row at the loop index |
| Catalog.ParseCatalog | Catalog/citeMicros-1.1.1_catalog_0.8.go:450-470 | the record loop keeps what the revision keeps |
| Catalog.KeptEntries | Catalog/citeMicros-1.1.1_catalog_0.8.go:458-469 | from 0.3 on, exactly the records with a valid URN are kept, in input order; 0.1 keeps every record |
| Catalog.EntryUrns | Catalog/citeMicros-1.1.1_catalog_0.8.go:1555-1557 | one URN per entry |
| Catalog.CollectUrns | Catalog/citeMicros-1.1.1_catalog_0.8.go:1555-1557 | the `urns` loop takes the URN of every entry |
| Catalog.CatalogReply | Catalog/citeMicros-1.1.1_catalog_0.8.go:1535-1595 | the /catalog reply for a URN list: with no query, Success and the list; else the query cropped to four fields plus `:` (a panic below four fields, recovered in 0.8), "<c> is not valid CTS." when that fails isCTSURN, Success when it is listed, else the Exception with the list; 0.1 only answers an invalid raw query, under `/texts/urns` |
| Catalog.ReturnCatalog | Catalog/citeMicros-1.1.1_catalog_0.8.go:1503-1596 | the reply is that of the catalog specification for the de-duplicated URN list computed, in every revision |
| Catalog.CroppedQueryValid | Catalog/citeMicros-1.1.1_catalog_0.3.go:1471-1474 | the cropped query is valid exactly when the query's first two fields are `urn` and `cts` |
| Catalog.CatalogLookup | Catalog/citeMicros-1.1.1_catalog_0.8.go:1536-1578 | Success exactly when the cropped query plus `":"` is the URN of a kept entry; otherwise Exception carrying every registered URN once; an empty query lists them with Success |
| Catalog.CatalogReflexive | Catalog/citeMicros-1.1.1_catalog_0.8.go:1536-1563 | an entry URN with five fields and an empty last field is found by its own URN |
| Catalog.FourFieldLookup | Catalog/citeMicros-1.1.1_catalog_0.8.go:1536-1578 | a four-field URN is found exactly when that URN followed by `:` is registered |
| Catalog.FourFieldEntryNotFound | Catalog/citeMicros-1.1.1_catalog_0.8.go:1536-1578 | a catalog whose only entry is a four-field URN does not find that entry by its own URN |
| Catalog.SingleEntryUrns | Catalog/citeMicros-1.1.1_catalog_0.8.go:458-469 | a one-row catalog whose URN is valid registers exactly that URN |
| Catalog.EarlyCatalogSilent | Catalog/citeMicros-1.1.1_catalog_0.1.go:1402-1424 | 0.1 writes a reply only for a non-empty query that is not valid CTS |

## Left out

- Configuration loading, `mux` routing, CORS, log files, `log.Println`, JSON marshalling and the HTTP writer. A reply is the response value a handler would write.
- `getContent` and the `#!ctsdata` / `#!ctscatalog` ingestion through `encoding/csv`, including the comment-stripping regex. The corpus and catalog records are inputs of the model. So are the error paths of ingestion: a failed fetch, or a row with the wrong number of fields, which panics.
- Go's general regex engine. Only the fixed level patterns are encoded. In the spliced query, `.` matches any character but a newline, and every other character is taken literally. A query holding other regex metacharacters (`(`, `*`, `[`, `+`, `?`, `\`, ...) is therefore not modelled as Go reads it.
- `Node.URN`, `Text`, `Previous` and `Next` are `[]string` in Go. The model keeps `urn` and `text` as single strings, since they are always one-element slices, and keeps `previous` and `next` as lists.
- The request URN field is unexported (`requestURN`) in 0.3 and 0.8, so those revisions leave it out of their JSON. The model keeps it in the response value in every revision.
- The difference between a nil and an empty Go slice in JSON (`null` versus `[]`), for example an empty `matchingURNs`.
- The version endpoints (`ReturnCiteVersion`, `ReturnTextsVersion`) are constant replies. The commented-out blocks of the 0.1 and 0.3 catalog handlers are not code.
- Texts.ReturnWorkUrns: the Exception that `ParseURNSFromCTSdata` returns when the fetch fails is not modelled, since fetching is outside the model.
- Works.Locate: its contract states only the work invariant. What a located work holds is stated by Works.LocateFound, Works.WorkOf and Works.StemIndex.
- Texts.ReturnFirst, Texts.ReturnLast, Texts.ReturnPrev, Texts.ReturnNext, Texts.ReturnReff and Texts.ReturnPassage state only that the reply is the specification's value for some de-duplicated stem list. Go's map order is unspecified, so which of several selected stems is picked cannot be stated more precisely.

## Findings

| source | as written | input that shows it | evidently intended | confidence | as-written member | corrected member |
|---|---|---|---|---|---|---|
| Catalog/citeMicros-1.1.1_catalog_0.8.go:1150-1162 | the `level4contains` branch of `ReturnReff` filters the nodes with the level-3 pattern; no node matches that pattern there, so the reply is Success with no URNs | a work with the single node `urn:cts:ns:w:1.1.1.1.1` and the query `urn:cts:ns:w:1`: the lowest matching level is 4, `/texts/urns` lists nothing, and `/texts` returns the node | filter with the level-4 pattern, so that the URN listing is the URNs of the passage, as at levels 1 to 3 | high (not executed) | TextsProperties.ReffLevelFourExample | TextsProperties.ReffAgreesWithPassage |
