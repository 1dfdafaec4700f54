# GenealogicCPP core in Dafny

GenealogicCPP scans C++ headers for class and struct declarations that
have an inheritance colon. It turns each declaration into (child, base)
pairs and builds the inheritance tree below a chosen root class. This
project models the two parts of that program with real algorithmic
content and proves properties of the model:

- **The declaration extractor** (`src/genealogic/parser.py`), in three steps:
  - Match the declaration pattern `DECL_RE` over a text, leftmost-first
    and non-overlapping, as `re.finditer` does (module `Declarations`).
  - Split each raw base list on commas that are outside template angle
    brackets (module `BaseList`).
  - Read a base-class name out of each segment (module `BaseName`).
- **The hierarchy builder** (`src/genealogic/tree.py`), in module
  `Hierarchy`:
  - Group the pairs by parent (`build_children_map`).
  - Walk breadth-first from the root to build the tree of `TreeNode`s
    (`build_tree`).
  - Count the tree's nodes (`count_nodes`).

Module `Text` holds what these share:
- Python's whitespace classes, `str.strip` and `str.split()`.
- The `\w` character class.
- Python's ordering of strings, and a sort under that ordering.

Module `Examples` works concrete inputs through the extractor: the
declarations of the test fixtures (`FlyingDog.h`, `MultilineChild.h`,
`Feature.h`, `CRTPChild.h`, `Flyable.h`), a head with a decoration token
and `final`, and inputs from the docstrings. Module `TreeExamples` shows
that the promises of `build_tree` leave only one possible tree for a
cyclic map and for a map whose children are listed out of order. It also
shows that `count_nodes` on that tree counts the classes reachable from
the root.

The source's loops are kept as loops:
- The character loop of `_split_base_list` is the method
  `BaseList.SplitBaseList`.
- The `finditer` search is `Declarations.FindHeads`.
- The two loops of `parse_declarations` are `Declarations.ParseDeclarations`
  and `Declarations.CollectBasePairs`.
- The loop of `build_children_map` is `Hierarchy.BuildChildrenMap`.
- The breadth-first walk is `Hierarchy.Explore` and
  `Hierarchy.AddChildren`, with `Hierarchy.BuildTree` around them.
- The loop of `count_nodes` is `Hierarchy.CountNodes`.

Each method is proved against a function or a predicate that specifies
it. The properties are then proved about that function.

### How the regular expression is modelled

`DECL_RE` is not interpreted by a general regex engine. For each start
position, the function `Declarations.HeadAt` computes the one match the
pattern has there, or none. Python's backtracking could only choose among
the alternatives that function considers:

- The class name `(\w+)` is taken as the whole word at its position.
  Backtracking could shorten it, and a shorter name can succeed when the
  rest of the word is `final` (`class Xfinal : B {`). But the whole word
  then succeeds as well, because the same `\s*:` follows it. The greedy
  whole word is tried first, so it is the one reported.
- In a decoration token, `\w+` must be followed by `(` or whitespace, and
  `[^)]*` by `)`. Giving back characters there leaves no way to go on.
- A `\s+` that gave back whitespace would leave whitespace where the next
  word must start.
- The lazy decoration loop `(?:...)*?` tries the name first. It consumes
  one decoration token only when that attempt fails.
- The base list `[^{;]+` runs to the first `{` or `;`, which must be `{`.
  When only whitespace lies between the colon and that `{`, the `\s*`
  before the list gives back its last character.

`Declarations.HeadAtShape` proves that every match found has the shape
the pattern describes. That shape is `Declarations.MatchesPattern`:
- the keyword, then at least one whitespace character;
- zero or more decoration tokens `\w+(?:\([^)]*\))?\s+`;
- the class name as a whole word, then an optional `final`, then the colon;
- a non-empty base list free of `{` and `;` that ends at the `{`. `re.finditer` is modelled as a scan over the table
of these per-position results: `Declarations.Scan`, characterised by
`Declarations.IsScan` and shown unique in `Declarations.ScanIsUnique`.

### Where the design description and the code differ (the model follows the code)

- **Template-argument parents.** A heuristic is described for this system
  that adds template arguments as extra parents (`Base<A, Mixin>` giving
  `Mixin`), but it is absent from the code. `_extract_base_name` has no such step: it takes the leading
  word of the first non-specifier token and nothing else.
  `Examples.VirtualBaseName` shows `virtual public Base<T>` giving `Base`.
- **Duplicates.** A deduplicated parent-to-children index with a reverse
  child-to-parents index is described for this system but absent from its
  code.
  `build_children_map` has only the parent-to-children mapping and keeps
  every repeat. `Hierarchy.ChildrenOfCounts` states this.
- **DAG mode.** A second "reachable DAG" output is described for this
  system but absent from its code. `build_tree` has no such mode.
- **Missing root.** The "root not found" error is implemented by the
  caller, not by `build_tree`. `src/genealogic/__main__.py:96-102` checks
  the root before building the tree. If the root is neither a parent nor a
  child in any pair, it prints "Class '…' not found in any inheritance
  relationship" and returns 1. `build_tree` itself returns a single node
  for an unknown root.

## Model

| member | source | states |
|---|---|---|
| Text.SkipSpace | src/genealogic/parser.py:10 | the end of the whitespace run at i: everything before it is whitespace and the character there is not |
| Text.Strip | src/genealogic/parser.py:42 | `str.strip()`: the result has no whitespace at either end, and is empty exactly when the input is all whitespace |
| Text.StripBetween | src/genealogic/parser.py:42 | stripping a text whose first and last non-whitespace characters are at a and e - 1 gives exactly the slice between them |
| Text.Words | src/genealogic/parser.py:51 | `str.split()`: every token is non-empty and free of whitespace, and there are no tokens exactly when the text is all whitespace |
| Text.WordsAfterSpace | src/genealogic/parser.py:51 | leading whitespace does not change the split |
| Text.WordsCons | src/genealogic/parser.py:51 | a whitespace-free word followed by whitespace splits off as the first token |
| Text.LeadingWord | src/genealogic/parser.py:61-62 | `re.match(r"(\w+)")`: the result is a prefix made of word characters, and the character after it, if any, is not one |
| Text.LeadingWordAppend | src/genealogic/parser.py:61-62 | text appended after a non-word character does not change the leading word |
| Text.LexLessIrreflexive | src/genealogic/tree.py:31 | no name sorts before itself |
| Text.LexLessTransitive | src/genealogic/tree.py:31 | the string order used by `sorted` is transitive |
| Text.LexLessTotal | src/genealogic/tree.py:31 | any two different names are ordered one way or the other |
| Text.LexLessAsymmetric | src/genealogic/tree.py:31 | no two names each sort before the other |
| Text.Insert | src/genealogic/tree.py:31 | inserting into a sorted list keeps it sorted and adds exactly that one name |
| Text.SortNames | src/genealogic/tree.py:31 | `sorted(...)`: the result is in order and is a permutation of the input |
| BaseList.Cuts | src/genealogic/parser.py:36-38 | every position listed is a comma read at angle-bracket depth zero |
| BaseList.CutsAscending | src/genealogic/parser.py:29-40 | the separators are found in increasing position order |
| BaseList.CutsComplete | src/genealogic/parser.py:36-38 | every comma at depth zero is a separator that is found |
| BaseList.Pieces | src/genealogic/parser.py:29-40 | there is one piece more than there are separators |
| BaseList.PieceIsSlice | src/genealogic/parser.py:29-40 | piece k is exactly the text between separator k - 1 (or the start) and separator k (or the end) |
| BaseList.StripEach | src/genealogic/parser.py:37 | each finished piece is stripped, in order |
| BaseList.SegmentIsStrippedSlice | src/genealogic/parser.py:23-46 | segment k is the stripped text between two consecutive separators |
| BaseList.SegmentsCount | src/genealogic/parser.py:42-44 | one segment per separator, plus one more unless the text after the last separator is all whitespace |
| BaseList.PiecesJoin | src/genealogic/parser.py:29-40 | no character is lost or reordered: the pieces joined back with commas give the text |
| BaseList.PiecesHaveNoSeparator | src/genealogic/parser.py:36-40 | no piece contains a separator |
| BaseList.NoSplitBelowZero | src/genealogic/parser.py:33-36 | after a stray `>` has driven the depth negative, no comma is a separator until a `<` is read |
| BaseList.PlainListDepth | src/genealogic/parser.py:29-36 | without angle brackets the depth stays zero, so every comma splits |
| BaseList.OneSeparator | src/genealogic/parser.py:36-38 | a list with a single depth-zero comma is cut exactly there |
| BaseList.PiecesStep | src/genealogic/parser.py:29-40 | one character of the loop: how the depth changes, and that a depth-zero comma starts a new piece while any other character extends the current one |
| BaseList.SplitBaseList | src/genealogic/parser.py:23-46 | the loop returns exactly the stripped segments, the last dropped when it strips to nothing |
| BaseName.NonSpecifiers | src/genealogic/parser.py:53 | the tokens kept are exactly those of the input that are not `public`, `protected`, `private` or `virtual`; the first one kept is the first token of the input that is not a specifier; and they stay non-empty |
| BaseName.WordsJoinSpaces | src/genealogic/parser.py:51-58 | splitting undoes `" ".join` of non-empty, whitespace-free tokens |
| BaseName.JoinSpacesLeadingWord | src/genealogic/parser.py:58-62 | the leading word of the joined tokens is the leading word of the first token |
| BaseName.ExtractBaseName | src/genealogic/parser.py:49-62 | None exactly when no token is left after the specifiers or the first one left does not start with a word character; otherwise the leading word of that token, which is a non-empty identifier |
| BaseName.ExtractFromTokens | src/genealogic/parser.py:51-62 | on tokens joined by single spaces, the name is read from the first non-specifier token |
| BaseName.SpecifierThenName | src/genealogic/parser.py:49-62 | `public Dog` gives `Dog`: a specifier followed by an identifier names that identifier |
| Declarations.SkipWord | src/genealogic/parser.py:12 | `\w+` is maximal: the run is all word characters and the character after it is not one |
| Declarations.FindStop | src/genealogic/parser.py:15-16 | the first `{` or `;` at or after i, with neither before it |
| Declarations.FindCloseParen | src/genealogic/parser.py:11 | `[^)]*\)`: the first `)` at or after i |
| Declarations.KeywordEnd | src/genealogic/parser.py:10 | `class` or `struct` at p: the match ends inside the text after the keyword |
| Declarations.MacroEnd | src/genealogic/parser.py:11 | one decoration token is consumed and ends with whitespace |
| Declarations.ColonAfter | src/genealogic/parser.py:12-14 | the colon after the class name, past optional whitespace and `final` |
| Declarations.ColonAfterShape | src/genealogic/parser.py:12-14 | the text between the name and the colon is whitespace, or `final` with whitespace around it |
| Declarations.NameAndBases | src/genealogic/parser.py:12-16 | a match starting at the name's position has its positions in order inside the text, with the colon at its colon position |
| Declarations.HeadFrom | src/genealogic/parser.py:11-16 | the lazy decoration loop: the name found is at or after the first token tried, and the match holds the colon |
| Declarations.HeadAt | src/genealogic/parser.py:9-18 | a match attempt at p, when it succeeds, starts at p, lies inside the text and holds the colon |
| Declarations.HeadAtShape | src/genealogic/parser.py:9-18 | every match has the pattern's shape: the keyword; at least one whitespace character; zero or more decoration tokens, each a word, an optional parenthesised group and whitespace; a whole-word name; an optional `final`; a colon; and a non-empty base list free of `{` and `;` that ends at the `{` |
| Declarations.HeadFromShape | src/genealogic/parser.py:11-16 | started after the keyword, its whitespace and any decoration tokens, the lazy decoration loop finds a match of the pattern's shape |
| Declarations.LeadStart | src/genealogic/parser.py:10 | the keyword followed by at least one whitespace character is a lead with no decoration token yet |
| Declarations.LeadMacro | src/genealogic/parser.py:11 | consuming one decoration token extends the lead to the token after it |
| Declarations.MacroToken | src/genealogic/parser.py:11 | what the decoration step consumes is one token `\w+(?:\([^)]*\))?\s+` |
| Declarations.DecorationsSnoc | src/genealogic/parser.py:11 | a run of decoration tokens followed by one more is a run of decoration tokens |
| Declarations.NameAndBasesShape | src/genealogic/parser.py:12-16 | the part of a match from the name on has the pattern's shape |
| Declarations.MatchesBelow | src/genealogic/parser.py:73 | the pattern is tried at each of the first n positions, and each match found starts there and ends inside the text |
| Declarations.MatchTable | src/genealogic/parser.py:73 | the pattern is tried at every position of the text |
| Declarations.MatchTableAt | src/genealogic/parser.py:73 | the table entry at p is the match attempt at p |
| Declarations.Scan | src/genealogic/parser.py:73 | `finditer`: every match reported starts at or after the search position |
| Declarations.ScanInOrder | src/genealogic/parser.py:73 | the matches reported do not overlap, and each ends before the next starts |
| Declarations.ScanReportsTable | src/genealogic/parser.py:73 | every match reported is the table's entry at its start |
| Declarations.ScanIsScan | src/genealogic/parser.py:73 | the scan meets the `finditer` contract: the leftmost match, then the search resumes after its `{`; nothing is reported only when nothing matches |
| Declarations.ScansAgree | src/genealogic/parser.py:73 | two match lists that both meet the `finditer` contract are equal |
| Declarations.ScanIsUnique | src/genealogic/parser.py:73 | the `finditer` contract determines the matches: any list meeting it is the scan |
| Declarations.ScanStep | src/genealogic/parser.py:73 | one step of the scan: report and skip past a match, or move one character on |
| Declarations.SearchStep | src/genealogic/parser.py:73 | one turn of the search loop keeps "matches so far followed by the rest of the scan are all the matches" |
| Declarations.TryMatch | src/genealogic/parser.py:73 | one attempt of the pattern at a position returns the table's entry there |
| Declarations.FindHeads | src/genealogic/parser.py:73 | the search loop returns exactly the scan of the whole text |
| Declarations.ScanMatches | src/genealogic/parser.py:73 | every match reported is what the matcher finds at its start |
| Declarations.ScanFits | src/genealogic/parser.py:73-75 | every match reported lies inside the text, so both groups can be read |
| Declarations.DeclaredHeads | src/genealogic/parser.py:73-75 | the matches of the whole text, each inside the text |
| Declarations.SegmentPairs | src/genealogic/parser.py:77-80 | one declaration gives at most one pair per segment; each pair has the declared name as child and a non-empty identifier as base |
| Declarations.CollectBasePairs | src/genealogic/parser.py:77-80 | the inner loop returns exactly the pairs of the segments, in segment order |
| Declarations.ParseDeclarations | src/genealogic/parser.py:65-82 | the loop returns the pairs of each match in turn, in match order |
| Declarations.SegmentPairsMembers | src/genealogic/parser.py:77-80 | a declaration contributes a pair exactly when the pair holds its name and a base name read from one of its segments |
| Declarations.HeadPairsMembers | src/genealogic/parser.py:73-80 | the pairs of a list of matches are exactly those some member contributes |
| Declarations.DeclarationPairsMembers | src/genealogic/parser.py:65-82 | (child, base) is reported exactly when some match names child and some segment of its base list names base |
| Declarations.DeclaredNameIsWord | src/genealogic/parser.py:74 | the name of every declaration found is a non-empty run of word characters |
| Declarations.NamedBaseIsWord | src/genealogic/parser.py:61-62 | a base name read from a segment is a non-empty run of word characters |
| Declarations.PairsAreIdentifiers | src/genealogic/parser.py:65-82 | both halves of every reported pair are non-empty identifiers |
| Declarations.NoMatchNoScan | src/genealogic/parser.py:73 | a table without matches from a position on gives an empty scan from there |
| Declarations.NoKeywordNoPairs | src/genealogic/parser.py:65-82 | a text in which neither `class` nor `struct` occurs yields no pairs |
| Declarations.NoColonNoPairs | src/genealogic/parser.py:14 | every match needs the inheritance colon, so a text without `:` yields no pairs |
| Hierarchy.Lookup | src/genealogic/tree.py:31 | `children_map.get(name, [])`: a name that is not a key has no children |
| Hierarchy.ChildrenOf | src/genealogic/tree.py:13-20 | the children the pairs give a parent are at most as many as the pairs |
| Hierarchy.BuildChildrenMap | src/genealogic/tree.py:13-20 | the keys are exactly the names that occur as a parent, and each key's list is its children in input order |
| Hierarchy.ParentsSnoc | src/genealogic/tree.py:18-19 | one more pair adds its parent to the keys |
| Hierarchy.ChildrenOfSnoc | src/genealogic/tree.py:18-19 | one more pair appends its child to its parent's list and changes no other list, and a first-seen parent starts from an empty list |
| Hierarchy.ChildrenOfAbsent | src/genealogic/tree.py:17-19 | a name that is nobody's parent has no children |
| Hierarchy.ChildrenOfCounts | src/genealogic/tree.py:18-19 | nothing is deduplicated: a child is listed under a parent once for every copy of that pair |
| Hierarchy.LookupChildren | src/genealogic/tree.py:13-20 | looking a name up in the built map gives the pairs' children of that name, or nothing |
| Hierarchy.Names | src/genealogic/tree.py:7-10 | the names of a tree in preorder, the node's own name first |
| Hierarchy.CountNodes | src/genealogic/tree.py:42-47 | the count is the number of nodes in the tree, so at least one |
| Hierarchy.ChildNames | src/genealogic/tree.py:36 | the names of a node's children, in order |
| Hierarchy.StrictlySortedDistinct | src/genealogic/tree.py:31-33 | a strictly sorted list has no repeats |
| Hierarchy.View | src/genealogic/tree.py:34-37 | the tree read out of the children lists has the node's name and one subtree per listed child |
| Hierarchy.ViewChild | src/genealogic/tree.py:36 | the i-th subtree is the tree read out below the i-th listed child |
| Hierarchy.AncDepth | src/genealogic/tree.py:34-37 | the k-th ancestor of a node is a node k levels above it |
| Hierarchy.AncSucc | src/genealogic/tree.py:36 | one more step up the ancestor chain goes to the parent |
| Hierarchy.AncIsRoot | src/genealogic/tree.py:25-37 | every node's chain of parents reaches the root at the node's depth |
| Hierarchy.DepthPositive | src/genealogic/tree.py:25-27 | only the root is at depth zero |
| Hierarchy.NamesAllMembers | src/genealogic/tree.py:7-10 | a name occurs in a list of trees exactly when it occurs in one of them |
| Hierarchy.ViewNames | src/genealogic/tree.py:34-37 | the subtree under n holds exactly the nodes whose ancestor at n's depth is n |
| Hierarchy.ViewNamesBelow | src/genealogic/tree.py:34-37 | every name in the subtree under n lies below n |
| Hierarchy.ViewNamesAbove | src/genealogic/tree.py:34-37 | every node below n is in the subtree under n |
| Hierarchy.AncBelow | src/genealogic/tree.py:36 | the ancestor one level below n is a child of n |
| Hierarchy.NamesAllDistinct | src/genealogic/tree.py:32-34 | trees each without repeats and pairwise sharing no name have no repeats together |
| Hierarchy.DistinctAppend | src/genealogic/tree.py:32-34 | two lists without repeats that share no name have none together |
| Hierarchy.ViewDistinct | src/genealogic/tree.py:32-34 | no name occurs twice in a subtree |
| Hierarchy.SubtreesDisjoint | src/genealogic/tree.py:32-34 | the subtrees of two different children share no name |
| Hierarchy.NotBelowItself | src/genealogic/tree.py:32-34 | a node does not occur below itself |
| Hierarchy.ViewEdges | src/genealogic/tree.py:31-36 | every edge of the tree is an edge of the children map |
| Hierarchy.ViewSorted | src/genealogic/tree.py:31-36 | the children of every node are in strictly increasing name order |
| Hierarchy.ViewLevels | src/genealogic/tree.py:29-37 | a property of each node at its depth holds throughout the tree, level by level |
| Hierarchy.Chain | src/genealogic/tree.py:29-37 | the k + 1 ancestors of a node, root first |
| Hierarchy.ChainAt | src/genealogic/tree.py:29-37 | position i of the chain is the ancestor k - i levels up |
| Hierarchy.ChainWalk | src/genealogic/tree.py:29-37 | a chain of ancestors that reaches the root, each step a map edge, is a walk from the root |
| Hierarchy.ChainLink | src/genealogic/tree.py:29-37 | each consecutive pair of the chain is a map edge |
| Hierarchy.ChainSteps | src/genealogic/tree.py:29-37 | the ancestors of a node lead up to the root, each one a child in the map of the next |
| Hierarchy.ChainStep | src/genealogic/tree.py:31-36 | each ancestor is a child in the map of the one above it |
| Hierarchy.WalkDepth | src/genealogic/tree.py:29-37 | once every node is expanded, a walk of i steps from the root reaches only nodes of depth at most i |
| Hierarchy.BuiltNodes | src/genealogic/tree.py:29-37 | after the walk, the nodes are exactly the names reachable from the root, each at its shortest distance |
| Hierarchy.BuiltTree | src/genealogic/tree.py:23-39 | the tree read out of the final state: the root's name, no repeats, exactly the reachable names, map edges only, sorted siblings, shortest depths |
| Hierarchy.FrontierStart | src/genealogic/tree.py:25-27 | the initial state, with the root as the only visited node and the only one queued, meets the loop invariant |
| Hierarchy.ExpandingStart | src/genealogic/tree.py:30-31 | taking the front of the queue starts its expansion with the invariant in force |
| Hierarchy.StartGrown | src/genealogic/tree.py:30-31 | the tree half of the expansion invariant holds when a node is dequeued |
| Hierarchy.StartQueued | src/genealogic/tree.py:30-31 | the queue half of the expansion invariant holds when a node is dequeued |
| Hierarchy.ExpandingSkip | src/genealogic/tree.py:32-33 | skipping a visited child keeps the expansion invariant |
| Hierarchy.ExpandingAdopt | src/genealogic/tree.py:34-37 | visiting a new child, appending it and queueing it keeps the expansion invariant |
| Hierarchy.AdoptGrown | src/genealogic/tree.py:34-36 | adding a child keeps the tree half of the invariant |
| Hierarchy.AdoptShaped | src/genealogic/tree.py:34-36 | adding a child keeps the nodes equal to the visited names and layered below the root |
| Hierarchy.AdoptDrawn | src/genealogic/tree.py:31-36 | adding a child keeps the children lists drawn from the map in sorted order |
| Hierarchy.AdoptQueued | src/genealogic/tree.py:37 | queueing the new child keeps the queue half of the invariant |
| Hierarchy.AdoptOk | src/genealogic/tree.py:31-36 | appending the next sorted child keeps every children list strictly sorted |
| Hierarchy.InUniverse | src/genealogic/tree.py:31 | every child in the map is a name the walk may visit |
| Hierarchy.AdoptLayered | src/genealogic/tree.py:34-36 | adding a child one level below its parent keeps the layering |
| Hierarchy.AdoptTiered | src/genealogic/tree.py:34-36 | a new child sits one level below its parent |
| Hierarchy.AdoptParents | src/genealogic/tree.py:36 | every recorded parent still lists its child |
| Hierarchy.AdoptEdges | src/genealogic/tree.py:36 | every listed child still has its lister as recorded parent |
| Hierarchy.AdoptKeys | src/genealogic/tree.py:34-36 | the new child becomes a node, and every node but the root has a parent |
| Hierarchy.AdoptKids | src/genealogic/tree.py:31-36 | every listed child is still a child in the map |
| Hierarchy.AdoptQueue | src/genealogic/tree.py:37 | the queue stays a list of distinct, childless nodes in order of depth |
| Hierarchy.AdoptProcessed | src/genealogic/tree.py:29-37 | nodes already expanded stay expanded |
| Hierarchy.AdoptSeen | src/genealogic/tree.py:31-37 | the sorted children handled so far are all visited |
| Hierarchy.ExpandingDone | src/genealogic/tree.py:29-37 | after the last child the node is expanded, and the loop invariant is back in force |
| Hierarchy.Progress | src/genealogic/tree.py:29-37 | each pass visits a new name of a finite set or shortens the queue, so the walk ends even on a cyclic map |
| Hierarchy.SortedFromMap | src/genealogic/tree.py:31 | every sorted child is a child in the map |
| Hierarchy.DoneProcessed | src/genealogic/tree.py:31-37 | once all its sorted children are handled, a node has all its children in the map among the nodes |
| Hierarchy.ProperSubsetSmaller | src/genealogic/tree.py:29-37 | a proper subset is smaller, as the termination argument needs |
| Hierarchy.FrontierDone | src/genealogic/tree.py:29-39 | with the queue empty, the walk's final state is complete |
| Hierarchy.AddChildren | src/genealogic/tree.py:31-37 | the inner loop: afterwards the node is expanded and the loop invariant holds, and either a new name was visited or the queue is one shorter |
| Hierarchy.Explore | src/genealogic/tree.py:25-37 | the outer loop ends with an empty queue and the invariant in force |
| Hierarchy.BuildTree | src/genealogic/tree.py:23-39 | `BreadthFirstTree`: the tree has the root's name; its names are distinct and exactly those reachable from the root; each edge is a map edge; siblings are strictly sorted; each node is at its shortest distance from the root |
| Hierarchy.ReachesInUniverse | src/genealogic/tree.py:25-37 | every name reachable from the root is the root or a child listed in the map |
| Hierarchy.DistinctCard | src/genealogic/tree.py:32-34 | a list without repeats has as many elements as the set of its names |
| Hierarchy.TreeSizeIsReachable | src/genealogic/tree.py:42-47 | a tree that keeps build_tree's promises has one node per name reachable from the root, so count_nodes on it gives the number of reachable classes |
| Examples.ClassDecl | src/genealogic/parser.py:9-18 | `class <name> : <bases>{` with whitespace gaps is matched once, with that name and that base list |
| Examples.OnePublicDecl | src/genealogic/parser.py:65-82 | a declaration with one base `public <Name>...` yields the one pair (name, Name) |
| Examples.TwoPublicDecl | src/genealogic/parser.py:65-82 | a declaration with two bases `public <N0>..., public <N1>...` cut at the comma between them yields (name, N0) then (name, N1) |
| Examples.TwoSegmentsOf | src/genealogic/parser.py:23-46 | two entries around the one separating comma are split into exactly those two entries, without their surrounding whitespace |
| Examples.PlainTwoBases | src/genealogic/parser.py:29-38 | with no angle bracket before it and no other comma, the one comma is the only separator |
| Examples.PublicLead | src/genealogic/parser.py:49-62 | `public ` followed by a capitalised identifier and a non-word character (template arguments, say) names that identifier |
| Examples.FlyingDogPairs | tests/fixtures/FlyingDog.h:5 | the declaration yields `(FlyingDog, Dog)` then `(FlyingDog, Flyable)` |
| Examples.MultiPairs | tests/fixtures/MultilineChild.h:5-7 | the declaration spread over three lines yields `(MultilineChild, Dog)` then `(MultilineChild, Flyable)` |
| Examples.InterfacePairs | tests/fixtures/Feature.h:6 | the declaration yields `(StaticObjectInterface, Base)` |
| Examples.FeatureCuts | tests/fixtures/Feature.h:9 | the comma inside `<Feature, Animal>` is at depth one and does not cut; the comma after `>` does |
| Examples.FeaturePairs | tests/fixtures/Feature.h:9 | the declaration yields `(Feature, StaticObjectInterface)` then `(Feature, Flyable)` |
| Examples.CrtpPairs | tests/fixtures/CRTPChild.h:5 | the declaration yields `(CRTPChild, Animal)` then `(CRTPChild, CRTPBase)`: the template argument is not a parent |
| Examples.FlyablePairs | tests/fixtures/Flyable.h:3 | a class without a base list yields no pairs |
| Examples.WidgetDecoration | src/genealogic/parser.py:11 | in `class __declspec(dllexport) Widget final : public Base {` the name is not found at `__declspec`, so the token and its argument are consumed as a decoration |
| Examples.WidgetName | src/genealogic/parser.py:12-16 | at `Widget` the name, `final`, the colon and the base list match |
| Examples.WidgetHead | src/genealogic/parser.py:9-18 | that text holds exactly one match, with the name `Widget` |
| Examples.WidgetPairs | src/genealogic/parser.py:65-82 | the decoration and `final` are skipped and the declaration yields `(Widget, Base)` |
| Examples.VirtualBaseName | src/genealogic/parser.py:50 | `virtual public Base<T>` gives `Base` |
| Examples.TemplateListSegments | src/genealogic/parser.py:24 | `A<B,C>, D` splits into `A<B,C>` and `D`: the comma inside the brackets does not split |
| TreeExamples.AtMostOneKid | src/genealogic/tree.py:31-36 | a node whose name lists one child in the map has at most one child in the tree, named that child |
| TreeExamples.RootOnce | src/genealogic/tree.py:32-34 | the root's name occurs in no child's subtree |
| TreeExamples.CycleTree | src/genealogic/tree.py:29-37 | for the map A -> [B], B -> [A] built from A, the only tree keeping build_tree's promises is `A[B]`: the cycle back to A is cut |
| TreeExamples.ForkTree | src/genealogic/tree.py:29-37 | for the map X -> [C, B], B -> [D] built from X, the only such tree is `X[B[D], C]`: siblings are sorted whatever the map's order |
| TreeExamples.CountReachable | src/genealogic/tree.py:42-47 | count_nodes on build_tree's result is the number of classes reachable from the root |

## Left out

- `parse_file` (`src/genealogic/parser.py:85-107`) is not modelled. It reads a file asynchronously, optionally only its first `max_lines` lines, and decodes it with replacement characters. The model starts from the decoded text.
- `collect_headers` (`src/genealogic/parser.py:110-113`) is not modelled. It is a directory listing.
- The command line, the console interface, the rendering and the entry point are not part of this model: `cli.py`, `tui.py`, `visualizer.py` and `__main__.py`.
- `IsWordChar` is ASCII only. Python's `\w` on `str` patterns also matches Unicode letters and digits, so identifiers with non-ASCII letters are not modelled.
- `Declarations.FindHeads`: the regex engine is replaced by a matcher written for this one pattern. The matcher is proved to produce matches of the pattern's shape (`Declarations.HeadAtShape`). It is not proved to find every match a backtracking engine would find, because there is no general regex semantics to compare it with.
- `Hierarchy.BuildTree`: the tree is built over a map from names to children lists. It is then read out as a `TreeNode` value. The in-place appends to `node.children` and the aliasing between the queue and the tree are not modelled. This is sound only because visited names are unique.
- `Hierarchy.BuildTree`: when a name is reachable through several parents at the same shortest depth, the contract does not say which parent holds it. The code places it under the parent dequeued first.
- The template-argument heuristic, the reverse index, the deduplicated index and the DAG mode are described for this system but are absent from its code. They are not modelled.
- The "root not found" error (`src/genealogic/__main__.py:96-102`) is implemented by the caller, outside the modelled core, and is left out with the rest of `__main__.py`.
