# Ethereum co-authorship betweenness: a Dafny model

This project models the two analysis scripts of `Ethererum_Betweenness_Centrality`. Both build a weighted, undirected
co-authorship graph of Ethereum Improvement Proposal (EIP) authors and rank the authors by betweenness centrality.

- `CommitBetweennessCentrality.py` starts from a table of commit rows. It drops duplicate rows, groups the rows by
  `EIP_Number` and joins each group's `Author` fields with `", "`. It then splits that string on `","`, strips every
  entry and removes excluded names (`remove_names`). The graph gets one edge for every pair in each EIP's list, and
  the weight counts the pairs. The result is the subgraph of the nodes with positive centrality, together with the
  centrality dict.
- `EIPBetweennessCentrality.py` reduces each author of each EIP row to a key, the last whitespace-separated token of
  the stripped name (`get_last_name`). It adds every key as a node and pairs the keys of a row by index, `i < j`.
  It then removes self-loops and, after that, isolated nodes. It tallies how often each key occurs and reports the
  twenty best-scored keys, with their tallies, in a stable descending sort.

The project has five modules:

- `PyText` (`pytext.dfy`) models the Python `str` operations the scripts use: `isspace` with Python's full
  whitespace set, `strip()`, `split(sep)`, `split()` and `join`.
- `WeightedGraph` (`graph.dfy`) models the networkx graph in two forms:
  - a value `UGraph`: a node set and a weight map stored under both orders of an edge;
  - a class `Graph`, whose methods update that state in place: `add_node`, `add_edge`, the weight increment,
    self-loop removal and node removal. `has_edge` is a read-only function of the class.

  It also defines the specification of the weights: `PairCount` counts the index pairs `i < j` of one author list
  that name an edge's two ends, and `TotalPairs` sums `PairCount` over all lists.
- `Centrality` (`centrality.dfy`) states what the scripts assume of `nx.betweenness_centrality`. The call is a
  parameter that scores exactly the nodes of the graph it is given, each node once.
- `CommitPipeline` (`commit.dfy`) models the commit script.
- `EipPipeline` (`eip.dfy`) models the EIP script.

Where the code changes state, the model is a method.
- `drop_duplicates(inplace=True)` replaces the rows of a `CommitTable` object. It has no loop.
- The graph loops and the tally loop are methods with loop invariants.

Each method is proved against specification functions, and further lemmas prove what those functions mean.

The model follows the code in these behaviours:

- In both scripts, an author list that repeats a name adds a self-loop `{u, u}`.
- Edge weights count index pairs, not EIPs.
- The commit script does not remove self-loops or isolated nodes.
- The EIP script does not drop duplicate rows.
- The tally counts occurrences of a key. It does not count distinct EIPs, so two authors of one EIP who share a last
  name add two to that key.
- Ties in the report keep the order of the centrality dict.

## Model

| member | source | states |
|---|---|---|
| PyText.Strip | Ethererum_Betweenness_Centrality/EIPBetweennessCentrality.py:21 | the result of `strip()` has no whitespace at either end |
| PyText.StripSpan | Ethererum_Betweenness_Centrality/CommitBetweennessCentrality.py:9 | `strip()` returns a contiguous middle slice of its input, and everything cut off on either side is whitespace |
| PyText.StripSkipsSpace | Ethererum_Betweenness_Centrality/CommitBetweennessCentrality.py:16 | a leading whitespace character, such as the space that the `", "` join leaves, does not change the stripped entry |
| PyText.StripKeepsChars | Ethererum_Betweenness_Centrality/CommitBetweennessCentrality.py:9 | `strip()` never introduces a character, so a stripped entry holds no comma when the entry held none |
| PyText.StripBlank | Ethererum_Betweenness_Centrality/EIPBetweennessCentrality.py:21 | `strip()` gives `""` exactly when the entry is empty or all whitespace |
| PyText.Split | Ethererum_Betweenness_Centrality/CommitBetweennessCentrality.py:16 | `s.split(sep)` always gives at least one piece (`"".split(sep) == [""]`). `JoinSplit` and `SplitJoin` characterise the pieces |
| PyText.Join | Ethererum_Betweenness_Centrality/CommitBetweennessCentrality.py:9 | `sep.join(xs)` is defined as the entries with `sep` between neighbours. `JoinSplit` and `SplitJoin` state its round trips with `split` |
| PyText.JoinSplit | Ethererum_Betweenness_Centrality/CommitBetweennessCentrality.py:16 | joining the pieces of `s.split(sep)` with `sep` gives back `s`, for every string |
| PyText.SplitJoin | Ethererum_Betweenness_Centrality/CommitBetweennessCentrality.py:24 | splitting `sep.join(xs)` on `sep` gives back the non-empty list `xs` when no entry holds the separator's first character |
| PyText.SplitAfterPlain | Ethererum_Betweenness_Centrality/CommitBetweennessCentrality.py:16 | a prefix without the separator's first character stays glued to the first piece of the split |
| PyText.SplitPiecesPlain | Ethererum_Betweenness_Centrality/CommitBetweennessCentrality.py:16 | after `split(',')`, no piece contains a comma |
| PyText.SplitCount | Ethererum_Betweenness_Centrality/EIPBetweennessCentrality.py:21 | `split(',')` gives one more piece than the string has commas |
| PyText.SplitAtSep | Ethererum_Betweenness_Centrality/CommitBetweennessCentrality.py:15-16 | `split(',')` of two strings glued by a comma is the concatenation of their two splits |
| PyText.Words | Ethererum_Betweenness_Centrality/EIPBetweennessCentrality.py:7 | `s.split()` gives only non-empty, whitespace-free tokens. `WordsNone` and `LastWordSpan` pin down the empty case and the last token |
| PyText.WordsFrom | Ethererum_Betweenness_Centrality/EIPBetweennessCentrality.py:7 | every token of `split()` is non-empty and free of whitespace |
| PyText.WordsNone | Ethererum_Betweenness_Centrality/EIPBetweennessCentrality.py:7-8 | `split()` gives no token exactly when the name is empty or all whitespace |
| PyText.LastWordSpan | Ethererum_Betweenness_Centrality/EIPBetweennessCentrality.py:7-8 | the last token of `split()` is a span of the name that starts it or follows whitespace, and only whitespace comes after it |
| WeightedGraph.WeightSymmetric | Ethererum_Betweenness_Centrality/EIPBetweennessCentrality.py:27-28 | in an undirected graph, `G[u][v]` and `G[v][u]` have the same weight |
| WeightedGraph.Isolates | Ethererum_Betweenness_Centrality/EIPBetweennessCentrality.py:37 | `nx.isolates` gives exactly the nodes that have no edge of any weight, a self-loop counting as an edge |
| WeightedGraph.Induced | Ethererum_Betweenness_Centrality/CommitBetweennessCentrality.py:33 | `G.subgraph(keep)` has the nodes of `G` in `keep` and exactly the edges of `G` between two of them, with their weights |
| WeightedGraph.InducedIsUndirected | Ethererum_Betweenness_Centrality/CommitBetweennessCentrality.py:33 | the subgraph is again an undirected graph whose edges end at its nodes |
| WeightedGraph.PairedNodes | Ethererum_Betweenness_Centrality/CommitBetweennessCentrality.py:25-29 | `add_edge` over `combinations(xs, 2)` creates every entry of a list of at least two entries as a node, and none for a shorter list |
| WeightedGraph.PairCount | Ethererum_Betweenness_Centrality/EIPBetweennessCentrality.py:25-30 | the weight one author list adds to `{u, v}` is defined as its number of index pairs `i < j` whose entries are `u` and `v`. `PairCountDistinct`, `PairCountLoop`, `PairCountPositive` and `AddPairs` characterise it |
| WeightedGraph.TotalPairs | Ethererum_Betweenness_Centrality/EIPBetweennessCentrality.py:20-30 | the weight of `{u, v}` after all rows is defined as the sum of `PairCount` over the rows. `BuildLastNameGraph`, `TotalPairsPositive` and `CreateAndAnalyzeGraph` use it |
| WeightedGraph.PairCountDistinct | Ethererum_Betweenness_Centrality/EIPBetweennessCentrality.py:25-30 | for `u != v`, the weight one list adds to `{u, v}` is (occurrences of `u`) × (occurrences of `v`) |
| WeightedGraph.PairCountLoop | Ethererum_Betweenness_Centrality/EIPBetweennessCentrality.py:25-30 | the weight one list adds to the self-loop `{u, u}` is c·(c−1)/2 for c occurrences of `u` |
| WeightedGraph.PairCountSymmetric | Ethererum_Betweenness_Centrality/CommitBetweennessCentrality.py:25-29 | the counted weight does not depend on the order of the edge's ends |
| WeightedGraph.PairCountPositive | Ethererum_Betweenness_Centrality/CommitBetweennessCentrality.py:25-29 | a list adds weight to `{u, v}` exactly when it holds `u` and `v` at two different positions |
| WeightedGraph.PairedNodesAreEndpoints | Ethererum_Betweenness_Centrality/CommitBetweennessCentrality.py:29 | a node is created for a list exactly when it is one end of a pair that the list counts |
| WeightedGraph.SetPairSpec | Ethererum_Betweenness_Centrality/EIPBetweennessCentrality.py:28-30 | writing one edge's weight keeps the graph undirected and changes no other weight |
| WeightedGraph.Graph.constructor | Ethererum_Betweenness_Centrality/EIPBetweennessCentrality.py:17 | `nx.Graph()` has no nodes and no edges |
| WeightedGraph.Graph.HasEdge | Ethererum_Betweenness_Centrality/EIPBetweennessCentrality.py:27 | `has_edge(u, v)` holds exactly when `{u, v}` has a positive weight |
| WeightedGraph.Graph.AddNode | Ethererum_Betweenness_Centrality/EIPBetweennessCentrality.py:23-24 | `add_node` adds the node and leaves every edge unchanged |
| WeightedGraph.Graph.AddEdge | Ethererum_Betweenness_Centrality/EIPBetweennessCentrality.py:30 | `add_edge(u, v, weight=w)` adds both ends as nodes, gives `{u, v}` weight `w` and leaves every other weight unchanged |
| WeightedGraph.Graph.IncrementWeight | Ethererum_Betweenness_Centrality/EIPBetweennessCentrality.py:28 | `G[u][v]['weight'] += 1` raises exactly that edge's weight by one, seen from both ends |
| WeightedGraph.Graph.AddOrIncrement | Ethererum_Betweenness_Centrality/EIPBetweennessCentrality.py:27-30 | the `has_edge` branch adds one to the weight of `{u, v}`, whether or not the edge existed, and adds both ends as nodes |
| WeightedGraph.Graph.RemoveSelfLoops | Ethererum_Betweenness_Centrality/EIPBetweennessCentrality.py:33 | self-loops go, every node and every other weight stays |
| WeightedGraph.Graph.RemoveNodes | Ethererum_Betweenness_Centrality/EIPBetweennessCentrality.py:38 | the given nodes go with every edge touching them, everything else stays |
| WeightedGraph.AddPartners | Ethererum_Betweenness_Centrality/EIPBetweennessCentrality.py:26-30 | the inner `j` loop adds, for every pair `{u, v}`, the number of later entries that pair with `xs[i]` |
| WeightedGraph.AddPairs | Ethererum_Betweenness_Centrality/EIPBetweennessCentrality.py:25-30 | the nested loops add `PairCount(xs, u, v)` to every weight and create the paired entries as nodes |
| CommitPipeline.KeptNames | Ethererum_Betweenness_Centrality/CommitBetweennessCentrality.py:9 | the list comprehension of `remove_names` is defined as: strip every entry, drop the stripped entries that are excluded, keep the order. `KeptNamesMembers` and `KeptNamesAppend` characterise it |
| CommitPipeline.KeptNamesMembers | Ethererum_Betweenness_Centrality/CommitBetweennessCentrality.py:9 | a name is kept exactly when some entry strips to it and it is not excluded, so every kept name is stripped |
| CommitPipeline.KeptNamesAppend | Ethererum_Betweenness_Centrality/CommitBetweennessCentrality.py:9 | filtering two entry lists one after the other is filtering their concatenation |
| CommitPipeline.RemoveNames | Ethererum_Betweenness_Centrality/CommitBetweennessCentrality.py:7-9 | `remove_names` is defined as `", "`.join of the kept names. `KeptNamesMembers`, `KeptNamesAppend` and `RemoveNamesRoundTrip` state which names are kept, in which order, and how they split back |
| CommitPipeline.RemoveNamesRoundTrip | Ethererum_Betweenness_Centrality/CommitBetweennessCentrality.py:9 | splitting `remove_names`' result on `", "` gives back the kept names, or `[""]` when every name was removed |
| CommitPipeline.Dedup | Ethererum_Betweenness_Centrality/CommitBetweennessCentrality.py:14 | `drop_duplicates` keeps every distinct row and no row twice. `DedupKeepsFirst` adds that it keeps the first copy of each row, in table order |
| CommitPipeline.FirstIndices | Ethererum_Betweenness_Centrality/CommitBetweennessCentrality.py:14 | the indices of the first copies of the rows are strictly increasing. `FirstIndicesMembers` says which indices they are |
| CommitPipeline.FirstIndicesMembers | Ethererum_Betweenness_Centrality/CommitBetweennessCentrality.py:14 | an index is among the first-copy indices exactly when no equal row comes before it |
| CommitPipeline.DedupKeepsFirst | Ethererum_Betweenness_Centrality/CommitBetweennessCentrality.py:14 | `drop_duplicates()` (`keep='first'`) returns the rows at a strictly increasing index sequence that holds exactly the indices with no equal row before them: the first copy of each row, in table order |
| CommitPipeline.DedupInsertCopy | Ethererum_Betweenness_Centrality/CommitBetweennessCentrality.py:14 | when `x` is a row of `a`, deduplicating `a + [x] + b` gives the same table as deduplicating `a + b`: a copy inserted after its row is dropped again |
| CommitPipeline.DedupDistinct | Ethererum_Betweenness_Centrality/CommitBetweennessCentrality.py:14 | a table without repeated rows is left unchanged, order included |
| CommitPipeline.DedupIdempotent | Ethererum_Betweenness_Centrality/CommitBetweennessCentrality.py:14 | dropping duplicates twice is the same as dropping them once |
| CommitPipeline.InsertSorted | Ethererum_Betweenness_Centrality/CommitBetweennessCentrality.py:15 | adding a key to the sorted group keys keeps them strictly increasing and adds exactly that key |
| CommitPipeline.EipNumbers | Ethererum_Betweenness_Centrality/CommitBetweennessCentrality.py:15 | the group keys of `groupby('EIP_Number')` are strictly increasing, and they are exactly the EIP numbers of the rows |
| CommitPipeline.GroupByEip | Ethererum_Betweenness_Centrality/CommitBetweennessCentrality.py:15 | `groupby('EIP_Number')` gives one row per EIP number of the table, exactly those numbers, in strictly increasing order |
| CommitPipeline.AuthorsOf | Ethererum_Betweenness_Centrality/CommitBetweennessCentrality.py:15 | the `Author` values of one `EIP_Number` group, which `", ".join` receives, are defined as those of the rows of that number, in row order. `AuthorsOfMembers`, `AuthorsOfAppend` and `AuthorsOfPresent` characterise them |
| CommitPipeline.AuthorsOfMembers | Ethererum_Betweenness_Centrality/CommitBetweennessCentrality.py:15 | an author string is in the group of EIP `e` exactly when some row of `e` carries it |
| CommitPipeline.AuthorsOfAppend | Ethererum_Betweenness_Centrality/CommitBetweennessCentrality.py:15 | the group follows row order: the group of two tables glued together is the two groups glued together |
| CommitPipeline.CleanRow | Ethererum_Betweenness_Centrality/CommitBetweennessCentrality.py:16 | cleaning a grouped row keeps its EIP number, and the new author string splits on `", "` into the row's kept names, or into `[""]` when every name was removed |
| CommitPipeline.CleanJoined | Ethererum_Betweenness_Centrality/CommitBetweennessCentrality.py:15-16 | joining a group's fields with `", "`, splitting on `","` and stripping gives the cleaned names of each field, one field after the other |
| CommitPipeline.KeptIgnoresLeadingSpace | Ethererum_Betweenness_Centrality/CommitBetweennessCentrality.py:15-16 | the space that the join puts in front of a field does not change the field's cleaned names |
| CommitPipeline.FormattedRows | Ethererum_Betweenness_Centrality/CommitBetweennessCentrality.py:12-17 | the table `format_input_data` returns is defined as `CleanRow` applied to every row of `GroupByEip` of the deduplicated rows. `FormattedRowsMeaning` states what it holds |
| CommitPipeline.FormattedRowsMeaning | Ethererum_Betweenness_Centrality/CommitBetweennessCentrality.py:12-17 | `format_input_data` gives one row per distinct EIP number, in increasing order, and each row's string splits on `", "` into that EIP's cleaned names in row order, or `[""]` |
| CommitPipeline.DuplicatesDoNotCount | Ethererum_Betweenness_Centrality/CommitBetweennessCentrality.py:14-16 | exact duplicate rows never count twice: a copy of a row inserted anywhere after that row leaves the formatted table unchanged |
| CommitPipeline.CommitTable.DropDuplicates | Ethererum_Betweenness_Centrality/CommitBetweennessCentrality.py:14 | `drop_duplicates(inplace=True)` replaces the table's rows by their deduplication |
| CommitPipeline.FormatInputData | Ethererum_Betweenness_Centrality/CommitBetweennessCentrality.py:12-17 | the table is deduplicated in place, and the grouped, cleaned rows are returned |
| CommitPipeline.PositiveNodes | Ethererum_Betweenness_Centrality/CommitBetweennessCentrality.py:32 | a node is selected exactly when some centrality item gives it a score above zero |
| CommitPipeline.AuthorLists | Ethererum_Betweenness_Centrality/CommitBetweennessCentrality.py:23-24 | the lists the graph loop reads are defined as `str(row['Author']).split(', ')` of each row. `AuthorListsOfFormatted` states what they are for a formatted table |
| CommitPipeline.AuthorListsOfFormatted | Ethererum_Betweenness_Centrality/CommitBetweennessCentrality.py:16-24 | for the output of `format_input_data`, the `k`-th list is exactly the kept names of the `k`-th EIP number, in order, or `[""]` when none is kept |
| CommitPipeline.CreateAndAnalyzeGraph | Ethererum_Betweenness_Centrality/CommitBetweennessCentrality.py:20-35 | the centrality is that of the co-authorship graph; the subgraph keeps the positively scored nodes and the total pair count of every edge between them |
| CommitPipeline.CoauthorGraphUnique | Ethererum_Betweenness_Centrality/CommitBetweennessCentrality.py:22-29 | the graph the loop builds is determined by the author lists alone |
| CommitPipeline.NodesAreEdgeEnds | Ethererum_Betweenness_Centrality/CommitBetweennessCentrality.py:25-29 | nodes come only from `add_edge`: a name is a node exactly when it is an end of a counted pair |
| CommitPipeline.ShortListAddsNothing | Ethererum_Betweenness_Centrality/CommitBetweennessCentrality.py:24-25 | a list with fewer than two entries, such as the `[""]` of an EIP whose names were all removed, adds no node and no weight |
| EipPipeline.GetLastName | Ethererum_Betweenness_Centrality/EIPBetweennessCentrality.py:5-8 | `get_last_name` returns either the name itself or a non-empty, whitespace-free token. `LastNameIsLastToken` and `LastNameOfBlank` say which |
| EipPipeline.LastNameIsLastToken | Ethererum_Betweenness_Centrality/EIPBetweennessCentrality.py:5-8 | a name with a token gives its last token: whitespace-free, starting the name or following whitespace, with only whitespace after it |
| EipPipeline.LastNameOfBlank | Ethererum_Betweenness_Centrality/EIPBetweennessCentrality.py:8 | a name without a token is returned unchanged |
| EipPipeline.AuthorKey | Ethererum_Betweenness_Centrality/EIPBetweennessCentrality.py:21 | a key, `get_last_name(author.strip())`, never begins or ends with whitespace, holds only characters of its entry, and is `""` exactly when the entry is blank |
| EipPipeline.RowKeys | Ethererum_Betweenness_Centrality/EIPBetweennessCentrality.py:21 | a row gives one more key than its `Author` field has commas; every key is stripped and holds no comma; the `k`-th key is the key of the `k`-th comma-separated entry |
| EipPipeline.KeyRows | Ethererum_Betweenness_Centrality/EIPBetweennessCentrality.py:20-21 | the key lists of all rows are defined as `RowKeys` of each row, in row order. `RowKeys`, `KeysOfMembers` and `AuthorEipCount` characterise them |
| EipPipeline.KeysOfMembers | Ethererum_Betweenness_Centrality/EIPBetweennessCentrality.py:22-24 | a key is among all the keys exactly when some row holds it |
| EipPipeline.AddNodes | Ethererum_Betweenness_Centrality/EIPBetweennessCentrality.py:22-24 | every key of the row becomes a node, and no weight changes |
| EipPipeline.BuildLastNameGraph | Ethererum_Betweenness_Centrality/EIPBetweennessCentrality.py:17-30 | the nodes are all the keys of all rows, and each weight is the total pair count of its ends over all rows |
| EipPipeline.Prune | Ethererum_Betweenness_Centrality/EIPBetweennessCentrality.py:32-38 | self-loops go, every other weight stays, and a node stays exactly when it has an edge to a different node |
| EipPipeline.PrunedHasNoIsolates | Ethererum_Betweenness_Centrality/EIPBetweennessCentrality.py:36-38 | after pruning, no node is isolated |
| EipPipeline.TotalPairsPositive | Ethererum_Betweenness_Centrality/EIPBetweennessCentrality.py:20-30 | the total weight of `{u, v}` is positive exactly when some row counts the pair |
| EipPipeline.PrunedNodeMeaning | Ethererum_Betweenness_Centrality/EIPBetweennessCentrality.py:20-38 | a key survives pruning exactly when some row holds it together with a different key |
| EipPipeline.MapSumRemove | Ethererum_Betweenness_Centrality/EIPBetweennessCentrality.py:60-64 | the sum of the tally's values does not depend on the key taken out first |
| EipPipeline.Bump | Ethererum_Betweenness_Centrality/EIPBetweennessCentrality.py:64 | `count[a] = count.get(a, 0) + 1` makes `a` a key, adds one to its count and leaves every other count unchanged |
| EipPipeline.MapSumBump | Ethererum_Betweenness_Centrality/EIPBetweennessCentrality.py:64 | one update adds exactly one to the sum of the counts |
| EipPipeline.TallyRow | Ethererum_Betweenness_Centrality/EIPBetweennessCentrality.py:63-64 | one row adds its keys to the tally, adds each key's occurrences in the row to its count, and adds the row's length to the sum |
| EipPipeline.AuthorEipCount | Ethererum_Betweenness_Centrality/EIPBetweennessCentrality.py:60-64 | the tally's keys are exactly the keys of all rows, each count is the key's number of occurrences, and the counts sum to the number of author entries |
| EipPipeline.InsertDesc | Ethererum_Betweenness_Centrality/EIPBetweennessCentrality.py:68 | inserting an item into the sorted prefix adds exactly that item |
| EipPipeline.InsertDescSorted | Ethererum_Betweenness_Centrality/EIPBetweennessCentrality.py:68 | inserting into a list in descending score order keeps it in descending order |
| EipPipeline.SortDesc | Ethererum_Betweenness_Centrality/EIPBetweennessCentrality.py:68 | `sorted(..., reverse=True)` by score returns a permutation of the items in non-increasing score order |
| EipPipeline.SortStable | Ethererum_Betweenness_Centrality/EIPBetweennessCentrality.py:68 | the sort is stable: the items of any one score keep their original order |
| EipPipeline.SortKeepsCounted | Ethererum_Betweenness_Centrality/EIPBetweennessCentrality.py:67-68 | sorting keeps every item's node in the tally, so `author_eip_count[author]` is defined |
| EipPipeline.Top20 | Ethererum_Betweenness_Centrality/EIPBetweennessCentrality.py:67-68 | the report has min(20, n) entries: the first entries of the stable sort, in order, each with its key's tally, in non-increasing centrality |
| EipPipeline.Top20Dominates | Ethererum_Betweenness_Centrality/EIPBetweennessCentrality.py:67-68 | an item that scores above the report's last entry is in the report |
| EipPipeline.EipScript | Ethererum_Betweenness_Centrality/EIPBetweennessCentrality.py:17-68 | the script gives the pruned graph of the keys, its unchanged centrality, the occurrence tally and the top-20 report built from them |

## Left out

- Betweenness centrality itself is not computed (`CommitBetweennessCentrality.py:31`, `EIPBetweennessCentrality.py:41`). It is a parameter that scores exactly the nodes of the graph, each once, in the order of its items. The floating-point scores and the weight convention of networkx are not modelled.
- Reading and writing CSV files (`pd.read_csv`, `to_csv`), `print`, and the scripts' `main` are I/O and are not modelled. The model starts from the rows as values and returns what would be written.
- Plotting (`plot_bc_graph` in both files, `matplotlib`) is not modelled. It only draws and saves a figure.
- The `LastName` column (`EIPBetweennessCentrality.py:14`) is not modelled. It is computed and never read.
- `Ethereum_Magicians` (the forum scraper) is not part of this model.
- Table cells are modelled as strings and `EIP_Number` as an integer. Missing cells (`NaN`), `str()` of a non-string cell, and pandas' handling of `NaN` in `drop_duplicates` and `groupby` are not modelled.
- Weights are natural numbers, and graphs are sets and maps. The insertion order of networkx's node and edge dicts is not modelled. It reaches the centrality items, whose order is a parameter, and the iteration order of the returned subgraph (next line).
- CommitPipeline.CreateAndAnalyzeGraph: the returned subgraph is a set of nodes and a map of weights. The iteration order of networkx's `G_subgraph` view (its nodes and edges, in the order they were inserted) is not modelled.
- WeightedGraph.Graph: the class keeps one weight map keyed by ordered pairs instead of networkx's nested adjacency dicts. Attribute dicts shared between `G[u][v]` and `G[v][u]` are modelled as equal weights under both orders.
- CommitPipeline.CreateAndAnalyzeGraph: the subgraph is a value copy. A networkx subgraph is a read-only view that shares the graph's attribute dicts, and this sharing is not modelled.
