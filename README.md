# spinclude cycle detector, modelled in Dafny

spinclude finds include cycles in a C/C++ project. Its scanner reads each
header's `#include` lines and builds a `Graph`, a set of `Node{id,
childNodes}` keyed by id. Its solver partitions that graph into
strongly-connected components.

The solver has two layers:

- `TarjanCore` is the engine. Despite its name it runs Kosaraju's two-pass
  method:
  - it rebuilds every node's parent (predecessor) set from the child sets;
  - a depth-first pass stamps each node with a discovery number `nom` and a
    finish number `denom`, taken from one shared counter;
  - it lists the nodes by `denom`, descending;
  - a second depth-first pass, over parent edges and confined to
    ungrouped nodes, collects each component.
- `TarjanSolver` is the front end. It turns the id-keyed `Graph` into engine
  nodes, synthesising a node for every child id that no `Node` declares. It
  runs the engine and maps the components back to sets of ids.

Around the solver sit two line-level text parsers. The config-file parser
reads `key=v1,v2` lines with whitespace and `#` comments. The include
scanner recognises `#include<…>` and `#include"…"` lines, makes header
paths relative, and combines return codes.

The engine's nodes live in an arena: a node is its index in a `seq`, and
child and parent sets hold indices. This replaces the source's
`set<shared_ptr<TarjanNode>>`, whose iteration order is pointer order. The
engine and the front end are classes whose methods update their fields.
Loops over sets pick elements by nondeterministic choice (`:|`), so the
proofs hold for every iteration order.

The files:

| file | models |
|---|---|
| `data_structure.dfy` | `Node`, its id-only `operator<`, `Graph` as an id-keyed set, `toString` |
| `tarjan_node.dfy` | the `TarjanNode` record, `hasNom`/`hasDenom`, `str` |
| `digraph.dfy` | reachability and strongly-connected components over an arena |
| `dfs_numbering.dfy` | the invariant of pass 1 and the finish-order lemma pass 2 relies on |
| `tarjan_core.dfy` | class `TarjanCore`: `solve` and its phases, `getSolution` |
| `id_graph.dfy` | components over ids, and what it means for an arena to represent a `Graph` |
| `tarjan_solver.dfy` | class `TarjanSolver`: conversions, `solve`, `getSolution` |
| `scenarios.dfy`, `solver_scenarios.dfy` | the graphs of the unit tests and their components |
| `text.dfy` | `isspace`, whitespace removal, `find`, prefix and suffix tests |
| `config_file.dfy` | class `ConfigFile`: line parsing, the raw map, the defaults |
| `project_parser.dfy` | `is_header_file`, include extraction, `generateHeaderList`, `parse` |

The headline results:

- `TarjanCore.Solve` ensures that on success the solution is a partition of
  the arena into exactly its mutual-reachability classes.
  `Digraph.SccPartitionUnique` shows that this family is unique.
- `TarjanSolver.GetSolution` ensures that the result is exactly the
  components of the caller's `Graph` over ids, dangling child ids included.

Where the specification and the code disagree, the model follows the code:

- Before a successful solve, the code's `getSolution` returns whatever a
  function-static buffer last held, not a guaranteed empty result. The
  model returns "no fresh result" (`None`).
- For an empty input graph, the engine finds no component. `solve`
  therefore returns false, not success with an empty solution.
- Inserting a `Node` whose id is already in a `Graph` keeps the first node;
  the two child sets are not merged.

## Model

| member | source | states |
|---|---|---|
| `DataStructure.StrLessIrreflexive` | src/DataStructure.cpp:52-55 | string `<` never holds between a string and itself |
| `DataStructure.StrLessTransitive` | src/DataStructure.cpp:52-55 | string `<` is transitive |
| `DataStructure.StrLessTotal` | src/DataStructure.cpp:52-55 | two different strings are ordered one way or the other |
| `DataStructure.StrLessAsymmetric` | src/DataStructure.cpp:52-55 | string `<` never holds both ways |
| `DataStructure.NodeLessStrictOrder` | src/DataStructure.cpp:52-55 | `Node`'s `operator<` is a strict order, and two nodes are equivalent under it exactly when their ids are equal |
| `DataStructure.NewNode` | src/DataStructure.h:37 | a new `Node` has the given id and no children |
| `DataStructure.Insert` | src/DataStructure.h:48 | inserting into a `Graph` adds the node exactly when its id is absent; afterwards the id is present |
| `DataStructure.InsertSameIdUnchanged` | src/DataStructure.cpp:52-55 | inserting a second node with an existing id leaves the `Graph` unchanged, whatever its children |
| `DataStructure.SortedStrings` | src/DataStructure.cpp:36-39 | a set of ids is iterated in ascending order, each element once |
| `DataStructure.AscendingUnique` | src/DataStructure.cpp:36-39 | any ascending enumeration of a set is that iteration order |
| `DataStructure.ToString` | src/DataStructure.cpp:27-45 | the rendering starts with the id, and a node without children renders as exactly its id |
| `DataStructure.ToStringChildren` | src/DataStructure.cpp:33-41 | with children, the rendering is the id, `" Child ("`, each child in ascending order followed by a space, then `")"` |
| `DataStructure.Put` | src/DataStructure.cpp:47-50 | `operator<<` appends exactly `toString()` to the stream |
| `TarjanNodes.NewTarjanNode` | src/TarjanCore.h:39 | a new engine node has stamps 0:0 and no child or parent references, so neither `hasNom` nor `hasDenom` holds |
| `TarjanNodes.NatToStringRoundTrip` | src/TarjanCore.cpp:56 | the decimal rendering of a non-negative stamp reads back as that stamp |
| `TarjanNodes.IntToString` | src/TarjanCore.cpp:56 | a stamp is written in decimal, with a minus sign when negative |
| `TarjanNodes.Str` | src/TarjanCore.cpp:52-80 | `str` is `"id" nom:denom`, then `" Child ( "`, the quoted ids of the node's successors and `")"` exactly when it has successors, then the same `" Parent ( "` section exactly when it has predecessors; the ids come from the referenced nodes, each once |
| `TarjanNodes.QuotedListSplit` | src/TarjanCore.cpp:64-67 | each id of the list appears quoted and followed by a space, after the quoted ids before it and before those after it |
| `TarjanNodes.StrNamesChild` | src/TarjanCore.cpp:62-69 | the k-th successor in iteration order is written as `"id" ` at its place inside the Child section, followed by the Parent section |
| `TarjanNodes.StrNamesParent` | src/TarjanCore.cpp:71-78 | the k-th predecessor in iteration order is written as `"id" ` at its place inside the Parent section, which ends the string |
| `TarjanNodes.StrFresh` | src/TarjanCore.cpp:56 | a fresh node renders as its quoted id and `0:0` |
| `Digraph.ReachTrans` | src/TarjanCoreAlgo.cpp:133-152 | reachability along child edges composes |
| `Digraph.SccSame` | src/TarjanCoreAlgo.cpp:117-152 | mutually reachable nodes have the same component |
| `Digraph.SccPartitionDisjoint` | src/TarjanCoreAlgo.cpp:117-152 | in an SCC partition, distinct components are disjoint, and two nodes share a component exactly when they are mutually reachable |
| `Digraph.SccPartitionUnique` | src/TarjanCoreAlgo.cpp:117-152 | an SCC partition is the family of all components of the graph, so it is unique |
| `Digraph.SccPartitionEmpty` | src/TarjanCoreAlgo.cpp:50 | the partition is empty exactly when there are no nodes |
| `DfsNumbering.InitialInv` | src/TarjanCoreAlgo.cpp:76-77 | with no node stamped and the counter at 0, the pass-1 invariant holds |
| `DfsNumbering.DiscoverKeepsInv` | src/TarjanCoreAlgo.cpp:104 | stamping a white node's `nom` with the next counter value keeps the invariant |
| `DfsNumbering.FinishKeepsInv` | src/TarjanCoreAlgo.cpp:113-114 | stamping `denom` once every child has a stamp keeps the invariant |
| `DfsNumbering.TreeEdgeKeepsInv` | src/TarjanCoreAlgo.cpp:105-111 | a child first entered from p nests strictly inside p: `p.nom < child.nom < child.denom < p.denom` |
| `DfsNumbering.PathAncestor` | src/TarjanCoreAlgo.cpp:96-115 | for every walk u→…→v, some ancestor of u that u reaches back finishes no earlier than v |
| `DfsNumbering.ComponentFinishesLast` | src/TarjanCoreAlgo.cpp:96-115 | if u reaches v, some node in u's component finishes no earlier than v |
| `DfsNumbering.FullNumbering` | src/TarjanCoreAlgo.cpp:80-83 | after pass 1 the counter is 2n, each node has `0 < nom < denom <= 2n`, and every value 1..2n stamps a node |
| `DfsNumbering.DenomsDistinct` | src/TarjanCoreAlgo.cpp:113-114 | distinct nodes get distinct finish stamps |
| `DfsNumbering.TreeParentsExact` | src/TarjanCoreAlgo.cpp:105-114 | after pass 1 each recorded tree parent has the node among its children and its interval strictly encloses the node's (`p.nom < c.nom < c.denom < p.denom`), and a node has a tree parent exactly when some interval encloses its own |
| `DfsNumbering.RootsStep` | src/TarjanCoreAlgo.cpp:80-83 | a top-level visit gives a tree parent to every node it stamps except the one it started from, which was entered after every earlier node had finished |
| `DfsNumbering.PreservesSettled` | src/TarjanCoreAlgo.cpp:80-83 | a top-level visit, which only adds stamps, leaves no visit open and keeps the nodes before it finished |
| `TarjanCoreAlgo.ParentsKept` | src/TarjanCoreAlgo.cpp:42-45 | pass 1 does not disturb the parent sets rebuilt before it |
| `TarjanCoreAlgo.RootComponent` | src/TarjanCoreAlgo.cpp:117-131 | when the grouped nodes are closed under parents and r finishes last among the rest, r's component is ungrouped and holds every ungrouped node reaching r |
| `TarjanCoreAlgo.CollectStep` | src/TarjanCoreAlgo.cpp:147-150 | after recursing into a parent, every node grouped so far reaches x, and all their parents are grouped except x's untried ones |
| `TarjanCoreAlgo.NewComponent` | src/TarjanCoreAlgo.cpp:124-129 | the nodes one search groups are exactly r's component, and the grouped set stays closed under parents |
| `TarjanCoreAlgo.SolutionStep` | src/TarjanCoreAlgo.cpp:121-130 | one iteration of pass 2 adds nothing for a grouped node, and otherwise adds exactly that node's component |
| `TarjanCoreAlgo.AllGrouped` | src/TarjanCoreAlgo.cpp:117-131 | once every listed node is grouped, the components found are an SCC partition |
| `TarjanCoreAlgo.FirstIterListStrict` | src/TarjanCoreAlgo.cpp:86-88 | the first-iteration list is strictly descending by `denom` |
| `TarjanCoreAlgo.TarjanCore.constructor` | src/TarjanCore.cpp:26-30 | the engine takes the node collection as given, starts unsolved, with the counter at 0 and no solution |
| `TarjanCoreAlgo.TarjanCore.GenerateParentNodes` | src/TarjanCoreAlgo.cpp:56-72 | afterwards each parent set is exactly the set of nodes that list the node as a child; earlier parents are discarded, and nothing else changes |
| `TarjanCoreAlgo.TarjanCore.NextIndex` | src/TarjanCoreAlgo.cpp:91-94 | the counter is pre-incremented and its new value returned |
| `TarjanCoreAlgo.TarjanCore.UpdateNodeFirstIter` | src/TarjanCoreAlgo.cpp:96-115 | a finished node is left alone; otherwise the node ends finished, with `nom` = counter+1 at entry and `denom` = the counter at exit, the DFS invariant is kept, and every other node the visit stamps gets a tree parent |
| `TarjanCoreAlgo.TarjanCore.FinishNode` | src/TarjanCoreAlgo.cpp:113-114 | once every child is stamped, u gets `denom` from the counter: u ends finished with `nom` = k+1 and `denom` = the counter, the DFS invariant holds, and the visit as a whole kept earlier stamps and gave a tree parent to every other node it stamped |
| `TarjanCoreAlgo.TarjanCore.VisitChildren` | src/TarjanCoreAlgo.cpp:105-111 | the loop over u's children visits each unstamped one, keeps the DFS invariant and stamps already made, leaves every child of u stamped, and records a tree parent for every node it stamps |
| `TarjanCoreAlgo.TarjanCore.SortByDenom` | src/TarjanCoreAlgo.cpp:29-32 | the result lists every arena index once, ordered by `compare_denom` (descending `denom`) |
| `TarjanCoreAlgo.TarjanCore.InsertAt` | src/TarjanCoreAlgo.cpp:86-88 | inserting a new index keeps the list a permutation of the indices |
| `TarjanCoreAlgo.TarjanCore.GenerateFirstIterList` | src/TarjanCoreAlgo.cpp:74-89 | every node ends stamped under the DFS invariant; `mFirstIterList` is a permutation of the nodes descending by `denom`; each tree parent is a parent in the graph whose interval encloses its child's, and exactly the nodes inside some interval have one |
| `TarjanCoreAlgo.TarjanCore.CollectParents` | src/TarjanCoreAlgo.cpp:133-152 | an already visited id changes nothing; otherwise x is grouped, every newly grouped node reaches x, and every parent of a newly grouped node is grouped |
| `TarjanCoreAlgo.TarjanCore.GenerateSolutionSet` | src/TarjanCoreAlgo.cpp:117-131 | the solution is a partition of the nodes into non-empty components, each exactly the mutual-reachability class of its members |
| `TarjanCoreAlgo.TarjanCore.Solve` | src/TarjanCoreAlgo.cpp:34-54 | once solved, returns true and changes nothing; otherwise returns true iff the collection is non-empty, and on success the solution is the SCC partition |
| `TarjanCoreAlgo.TarjanCore.GetSolution` | src/TarjanCore.cpp:37-50 | returns the solution exactly when solved, and no fresh result before |
| `IdGraphs.IdComponentsPartition` | src/TarjanSolver.cpp:135-157 | the id components are non-empty, cover every node and child id, are pairwise disjoint, and group exactly the mutually reachable ids |
| `IdGraphs.ReachLeavesDeclared` | src/TarjanSolver.cpp:97-107 | a walk that leaves an id starts at a declared `Node` |
| `IdGraphs.ReachArrivesChild` | src/TarjanSolver.cpp:110-124 | a walk that arrives somewhere else ends at some node's child id |
| `IdGraphs.DanglingSingleton` | src/TarjanSolver.cpp:95-107 | a child id that no `Node` declares reaches only itself and forms a component of its own |
| `IdGraphs.RepresentsEmpty` | src/TarjanSolver.cpp:47-53 | a representing arena is empty exactly when the `Graph` is |
| `IdGraphs.ReachIsIdReach` | src/TarjanSolver.cpp:109-124 | reachability between engine nodes is reachability between their ids |
| `IdGraphs.SccIds` | src/TarjanSolver.cpp:141-145 | the ids of an engine component are exactly the id component of any of its members |
| `IdGraphs.SolutionIds` | src/TarjanSolver.cpp:135-157 | mapping an engine SCC partition to ids gives exactly the `Graph`'s id components |
| `TarjanSolvers.DeclareNodes` | src/TarjanSolver.cpp:89-93 | one fresh engine node per declared id, with the map from ids to nodes a bijection |
| `TarjanSolvers.AddSlotIfMissing` | src/TarjanSolver.cpp:99-106 | a child id gets a fresh node only when it has none yet |
| `TarjanSolvers.AddSlots` | src/TarjanSolver.cpp:99-106 | after one node's children are processed, the map holds its old ids plus those children |
| `TarjanSolvers.AddMissingChildren` | src/TarjanSolver.cpp:95-107 | afterwards the map holds exactly the declared ids and the child ids, each with one fresh node |
| `TarjanSolvers.LinkNode` | src/TarjanSolver.cpp:110-124 | a node's child ids become exactly the child links of its engine node; the "Cannot find id" branch cannot happen |
| `TarjanSolvers.LinkChildren` | src/TarjanSolver.cpp:109-124 | the resulting arena represents the `Graph`: one unstamped node per id, with no parents and exactly the declared edges |
| `TarjanSolvers.ComponentIds` | src/TarjanSolver.cpp:140-145 | the inner loop collects exactly the ids of the component's nodes |
| `TarjanSolvers.TarjanSolver.constructor` | src/TarjanSolver.cpp:27-30 | stores the graph and starts unsolved, with nothing converted |
| `TarjanSolvers.TarjanSolver.ConvertToCoreNodes` | src/TarjanSolver.cpp:86-133 | always succeeds, leaving an arena that represents the `Graph`, dangling children included |
| `TarjanSolvers.TarjanSolver.Solve` | src/TarjanSolver.cpp:36-61 | once solved, returns true and changes nothing; otherwise returns true iff the graph is non-empty, caching the engine's partition on success |
| `TarjanSolvers.TarjanSolver.ConvertFromCoreNodes` | src/TarjanSolver.cpp:135-157 | succeeds iff no component is empty, and then the solution is each component's id set |
| `TarjanSolvers.TarjanSolver.GetSolution` | src/TarjanSolver.cpp:63-84 | before a successful solve, no fresh result and the solution is untouched; afterwards, exactly the id components of the graph |
| `Scenarios.TwoLinkedComponents` | src/test/TarjanCore_gtest.cpp:17-36 | `1<->2` has the single component {1,2} |
| `Scenarios.TwoApartComponents` | src/test/TarjanCore_gtest.cpp:38-54 | two isolated nodes give two singleton components |
| `Scenarios.FiveNodesSccs` | src/test/TarjanCore_gtest.cpp:131-159 | in `0->1->2->0, 0->3->4` the components are {0,1,2}, {3} and {4} |
| `Scenarios.FiveNodesComponents` | src/test/TarjanCore_gtest.cpp:131-159 | any solution of that graph is those three components |
| `Scenarios.EightNodesSccs` | src/test/TarjanCore_gtest.cpp:191-236 | in the 8-node graph the components are {a,b,e,f}, {c,g}, {d} and {h} |
| `Scenarios.EightNodesComponents` | src/test/TarjanCore_gtest.cpp:191-236 | any solution of that graph is those four components |
| `SolverScenarios.LinkedPairComponents` | src/test/TarjanSolver_gtest.cpp:40-59 | the `Graph` `"1"<->"2"` has the single id component {"1","2"} |
| `SolverScenarios.ApartPairComponents` | src/test/TarjanSolver_gtest.cpp:61-77 | the `Graph` of two edgeless nodes has id components {"1"} and {"2"} |
| `Text.RemoveSpaces` | src/ConfigFile.cpp:72 | the erase/remove_if idiom leaves no whitespace and never lengthens the line |
| `Text.RemoveSpacesDropsSpaces` | src/ConfigFile.cpp:72 | whitespace anywhere in a line makes no difference to the result |
| `Text.FindFrom` | src/ConfigFile.cpp:88 | `find` returns the first position at or after the start that holds the character, or none |
| `ConfigFiles.SplitValues` | src/ConfigFile.cpp:104-109 | `getline` tokens on `,` contain no comma, and non-empty text yields at least one token |
| `ConfigFiles.SplitJoin` | src/ConfigFile.cpp:104-109 | splitting undoes comma-joining when no token has a comma and the last token is non-empty |
| `ConfigFiles.Uncomment` | src/ConfigFile.cpp:75-79 | the line is cut before its first `#` |
| `ConfigFiles.Clean` | src/ConfigFile.cpp:72-79 | the processed line has no whitespace and no `#` |
| `ConfigFiles.ParseLine` | src/ConfigFile.cpp:81-113 | a line is skipped iff it is empty once cleaned, and rejected iff it is non-empty without `=`; a key holds no `=`, whitespace or `#`, with keys taken as the whole text before `=` (the corrected key) |
| `ConfigFiles.ParseLineIgnoresSpaces` | src/ConfigFile.cpp:72 | inserting whitespace anywhere in a line does not change its outcome |
| `ConfigFiles.ParseLineIgnoresComment` | src/ConfigFile.cpp:75-79 | everything from the first `#` is ignored |
| `ConfigFiles.ParseLineRoundTrip` | src/ConfigFile.cpp:96-110 | a line written `key=v1,v2,…` parses to that key and that value set |
| `ConfigFiles.ParseLineSplitsAt` | src/ConfigFile.cpp:88-98 | the entry splits the cleaned line at its first `=`, with keys taken as the whole text before `=` (the corrected key) |
| `ConfigFiles.AsWrittenKey` | src/ConfigFile.cpp:97 | as written, every key loses its last character, and a line starting with `=` gets the whole line as its key |
| `ConfigFiles.AsWrittenWrittenLine` | src/ConfigFile.cpp:97 | as written, `key=v1,…` is stored under the key without its last character |
| `ConfigFiles.AsWrittenMissesProjectDirs` | src/ConfigFile.cpp:97 | as written, `PROJECT_DIRS=src` is stored under `PROJECT_DIR`, while the corrected parse stores it under `PROJECT_DIRS` |
| `ConfigFiles.AsWrittenNeverStores` | src/ConfigFile.cpp:97-113 | as written, a key that no line stores under its shortened key never enters the map |
| `ConfigFiles.AsWrittenKeepsDefaults` | src/ConfigFile.cpp:47-53 | as written, a file whose entries all name `PROJECT_DIRS`, `EXCLUDE_DIRS` or `EXCLUDE_FILES` leaves all three fields at their defaults |
| `ConfigFiles.TruncatedKeysUndocumented` | src/ConfigFile.cpp:50-52 | none of the three looked-up keys, shortened by one character, is a looked-up key |
| `ConfigFiles.ApplyFails` | src/ConfigFile.cpp:88-94 | the parse fails exactly when some line is malformed |
| `ConfigFiles.ApplyKeeps` | src/ConfigFile.cpp:113 | a key that no line defines keeps its earlier value, with keys taken as the whole text before `=` (the corrected key) |
| `ConfigFiles.ApplyLastWins` | src/ConfigFile.cpp:113 | after a successful parse, a key holds the values of the last line that defines it, with keys taken as the whole text before `=` (the corrected key) |
| `ConfigFiles.Lookup` | src/ConfigFile.cpp:119-126 | returns the stored set when the key is present, and the default otherwise |
| `ConfigFiles.FilledFromLines` | src/ConfigFile.cpp:47-53 | after a successful parse, each field takes the values of the last line defining its key, with keys taken as the whole text before `=` (the corrected key) |
| `ConfigFiles.FilledDefault` | src/ConfigFile.cpp:128-134 | if no line defines `PROJECT_DIRS`, `projDirs` keeps the default {dir1, dir2}, with keys taken as the whole text before `=` (the corrected key) |
| `ConfigFiles.ConfigFile.constructor` | src/ConfigFile.cpp:28-31 | starts unparsed, with the default `ConfigData` and an empty raw map |
| `ConfigFiles.ConfigFile.ParseRawData` | src/ConfigFile.cpp:63-117 | the new raw map and the result are the line-by-line effect of the lines on the old map, with keys taken as the whole text before `=` (the corrected key) |
| `ConfigFiles.ConfigFile.GetFromRawData` | src/ConfigFile.cpp:119-126 | the lookup with fallback to the given default |
| `ConfigFiles.ConfigFile.Parse` | src/ConfigFile.cpp:38-56 | a missing file returns false and changes nothing; otherwise records the raw-data outcome and, on success, fills the three fields from their keys or the defaults, with keys taken as the whole text before `=` (the corrected key) |
| `ProjectParser.HeaderFileStem` | src/ProjectParser.cpp:40-53 | a path is a header file iff it is some stem followed by `.h` or `.hpp` |
| `ProjectParser.Basename` | src/ProjectParser.cpp:56-63 | `basename` is never empty and is `/` or free of `/` |
| `ProjectParser.BasenameOfHeader` | src/ProjectParser.cpp:114-117 | the basename of a header path is a suffix of it, is a header name and has no directory part |
| `ProjectParser.SigInclude` | src/ProjectParser.cpp:90-120 | a signature contributes only when the line starts with it, and what it contributes is a header name without directories |
| `ProjectParser.LineIncludes` | src/ProjectParser.cpp:78-121 | every name a line contributes is a header basename |
| `ProjectParser.FileIncludesAppend` | src/ProjectParser.cpp:75-122 | a file's includes are the union of its parts' includes |
| `ProjectParser.IncludeLine` | src/ProjectParser.cpp:89-120 | `#include"name"` or `#include<name>` records `basename(name)` exactly when the header name is not excluded |
| `ProjectParser.SigIncludeWritten` | src/ProjectParser.cpp:98-108 | the included name runs from the signature to the first closing delimiter |
| `ProjectParser.CommentedLine` | src/ProjectParser.cpp:79-86 | a line starting with `//` after any whitespace includes nothing |
| `ProjectParser.FirstLines` | src/ProjectParser.cpp:70-75 | at most the first 2000 lines are examined |
| `ProjectParser.LinesPastLimitIgnored` | src/ProjectParser.cpp:70-75 | lines after the 2000th make no difference |
| `ProjectParser.ExtractIncludes` | src/ProjectParser.cpp:88-121 | the signature loop finds exactly what the two signatures contribute |
| `ProjectParser.ProcessHeaderFile` | src/ProjectParser.cpp:65-127 | the `Graph` gains the node named by the file's basename, with the includes of its first 2000 lines, unless that id is already present |
| `ProjectParser.StripLeadingSlashes` | src/ProjectParser.cpp:291-295 | the result is a suffix with no leading `/`, and only `/` characters were removed |
| `ProjectParser.RelativeFirstPrefix` | src/ProjectParser.cpp:280-297 | the first directory that prefixes the header is removed, then all leading slashes |
| `ProjectParser.RelativeNoPrefix` | src/ProjectParser.cpp:280-299 | a header that no directory prefixes is unchanged |
| `ProjectParser.RelativeHeader` | src/ProjectParser.cpp:278-299 | the loop computes the header made relative to the directories in their order |
| `ProjectParser.GenerateHeaderList` | src/ProjectParser.cpp:277-303 | the header list is each full path made relative to the directories in `std::set` order |
| `ProjectParser.Or32` | src/ProjectParser.cpp:208 | `\|=` on two ints gives a negative result exactly when either side is negative |
| `ProjectParser.OrBitsSign` | src/ProjectParser.cpp:220 | or-ing two 32-bit patterns stays 32-bit and sets the sign bit iff either does |
| `ProjectParser.InsertAll` | src/ProjectParser.cpp:201-204 | inserting nodes only grows the `Graph`, which is empty iff it started empty and nothing was inserted |
| `ProjectParser.Parse` | src/ProjectParser.cpp:197-224 | the loop computes the combined code and `Graph` of the per-directory results |
| `ProjectParser.ParseDocumentedCodes` | src/ProjectParser.cpp:200-223 | with codes 0 or 1, the result is 1 if some directory was missing, plus 2 if no header was found |
| `ProjectParser.ParseStopsAtNegative` | src/ProjectParser.cpp:205-210 | a negative code stops the scan with a negative result, and later directories make no difference |

## Left out

- Directory walking and file I/O are left out: `parse_one_dir`, `generateHeaderList_helper`, `fopen`/`fgets`, `ifstream`, `isFileExist`/`isDirExist`, and the `excludes2.txt` write. The model takes a file's lines, each directory's scan result, the set of full header paths and a file-exists flag as parameters.
- ProjectParser.ProcessHeaderFile: its lines are the chunks `fgets` returns into a 1024-byte buffer, so a line longer than 1023 bytes arrives as several; the model takes the chunk sequence as given.
- ProjectParser.Basename: `basename` is a libc call; the model uses the POSIX definition. Its function-static buffers are left out.
- `Text.IsSpace` covers the C-locale whitespace characters only. Locale-dependent `isspace` and bytes beyond ASCII are not modelled.
- Logging, the debug/verbose flags, `TarjanCore::dumpInfo` and `ConfigData::dump` are left out: they only produce output.
- The command-line drivers `tarjan-util.cpp` and `spinclude.cpp` are left out. This includes the caller's filter that drops singleton components, which erases from a `std::set` while iterating over it (undefined behaviour).
- TarjanCoreAlgo.TarjanCore.GetSolution and TarjanSolvers.TarjanSolver.GetSolution: the function-static result buffers, which one instance's result can leak into another's, are not modelled. Before a successful solve the model returns "no fresh result" instead of the buffer's stale contents.
- TarjanCoreAlgo.TarjanCore.constructor: requires nodes that are unstamped, whose children all lie in the collection, and whose ids are distinct. The only caller, `TarjanSolver`, builds exactly such nodes. An engine over nodes with stale stamps or duplicate ids is not modelled.
- TarjanCoreAlgo.TarjanCore.NextIndex: the counter is an unbounded integer, so the 32-bit overflow of `mNomIndex`, which needs over 10^9 nodes, is not modelled.
- TarjanCoreAlgo.TarjanCore.SortByDenom: `partial_sort_copy` is modelled by an insertion into a fresh list. Its result is stated as the permutation descending by `denom`; with distinct stamps this is the one such order.
- Pointer-address iteration order over `set<shared_ptr<TarjanNode>>` is replaced by arbitrary choice, so every result holds for any order.
- The unit tests `Test3Nodes2Circle`, `Test3Nodes1Circle`, `Test4Nodes2Circle`, `Test4Nodes2Circle2` and `TestComprehensive2` of the engine, and the 8-node tests of the solver, have no scenario lemma. Their counts follow from the general partition theorem in the same way as the modelled ones.
- ConfigFiles.ParseLine: uses the corrected key, the whole text before `=`, where src/ConfigFile.cpp:97 keeps one character fewer (see "## Findings"); the code as written is ConfigFiles.ParseLineAsWritten and ConfigFiles.ApplyAsWritten, whose effect on the fields ConfigFiles.AsWrittenKeepsDefaults states.
- ConfigFiles.ParseLineSplitsAt: uses the corrected key, the whole text before `=`, where src/ConfigFile.cpp:97 keeps one character fewer (see "## Findings"); the code as written is ConfigFiles.ParseLineAsWritten and ConfigFiles.ApplyAsWritten, whose effect on the fields ConfigFiles.AsWrittenKeepsDefaults states.
- ConfigFiles.Apply: uses the corrected key, the whole text before `=`, where src/ConfigFile.cpp:97 keeps one character fewer (see "## Findings"); the code as written is ConfigFiles.ParseLineAsWritten and ConfigFiles.ApplyAsWritten, whose effect on the fields ConfigFiles.AsWrittenKeepsDefaults states.
- ConfigFiles.ApplyKeeps: uses the corrected key, the whole text before `=`, where src/ConfigFile.cpp:97 keeps one character fewer (see "## Findings"); the code as written is ConfigFiles.ParseLineAsWritten and ConfigFiles.ApplyAsWritten, whose effect on the fields ConfigFiles.AsWrittenKeepsDefaults states.
- ConfigFiles.ApplyLastWins: uses the corrected key, the whole text before `=`, where src/ConfigFile.cpp:97 keeps one character fewer (see "## Findings"); the code as written is ConfigFiles.ParseLineAsWritten and ConfigFiles.ApplyAsWritten, whose effect on the fields ConfigFiles.AsWrittenKeepsDefaults states.
- ConfigFiles.FilledFromLines: uses the corrected key, the whole text before `=`, where src/ConfigFile.cpp:97 keeps one character fewer (see "## Findings"); the code as written is ConfigFiles.ParseLineAsWritten and ConfigFiles.ApplyAsWritten, whose effect on the fields ConfigFiles.AsWrittenKeepsDefaults states.
- ConfigFiles.FilledDefault: uses the corrected key, the whole text before `=`, where src/ConfigFile.cpp:97 keeps one character fewer (see "## Findings"); the code as written is ConfigFiles.ParseLineAsWritten and ConfigFiles.ApplyAsWritten, whose effect on the fields ConfigFiles.AsWrittenKeepsDefaults states.
- ConfigFiles.ConfigFile.ParseRawData: uses the corrected key, the whole text before `=`, where src/ConfigFile.cpp:97 keeps one character fewer (see "## Findings"); the code as written is ConfigFiles.ParseLineAsWritten and ConfigFiles.ApplyAsWritten, whose effect on the fields ConfigFiles.AsWrittenKeepsDefaults states.
- ConfigFiles.ConfigFile.Parse: uses the corrected key, the whole text before `=`, where src/ConfigFile.cpp:97 keeps one character fewer (see "## Findings"); the code as written is ConfigFiles.ParseLineAsWritten and ConfigFiles.ApplyAsWritten, whose effect on the fields ConfigFiles.AsWrittenKeepsDefaults states.
- TarjanSolvers.TarjanSolver.Valid: the solver hands its own shared nodes to the engine, so after `solve` the solver's `mAllTarjanNodes` hold the stamps and parent sets the engine wrote. The model gives the engine a copy and keeps the solver's arena unstamped and without parents. No public member of the solver reads those fields.
- `ProjectParser_gtest.cpp` calls a five-argument `parse` that `ProjectParser.h` does not declare, so it does not describe the code shown and is not modelled.

## Findings

| source | as written | input that shows it | evidently intended | confidence | as-written member | corrected member |
|---|---|---|---|---|---|---|
| src/ConfigFile.cpp:97 | `key = line.substr(0, foundEq-1)` keeps one character too few, after whitespace has already been removed | the line `PROJECT_DIRS=src` is stored under `PROJECT_DIR`, so the `PROJECT_DIRS` lookup at src/ConfigFile.cpp:50 falls back to the default | `line.substr(0, foundEq)`, the whole text before `=` | high, from reading the code; not executed | `ConfigFiles.AsWrittenMissesProjectDirs` | `ConfigFiles.ParseLineRoundTrip` |
