# Network-motif census of a directed graph

This project models a directed-graph motif census in Dafny and proves what the census promises.
A motif of size k is a weakly connected directed graph built from edges among k labelled vertices, taken up to isomorphism.
The census does five things:

1. It builds the catalogue of all motifs of size k (`find_all_possible_motifs`).
2. It samples every weakly connected subgraph of the host graph induced on k of its vertices (`find_all_subgraphs`).
3. It groups the samples into isomorphism classes and gives each class's size to the first catalogue motif isomorphic to it (`count_motifs`, using `is_isomorphic`).
4. It formats the report: a header, then the motifs with a non-zero count, then those with a zero count, numbered 1, 2, … across both halves (`print_formatted_output`).
5. It validates the motif size and the graph size before any of this (`validate_motif_size`, `validate_graph_size`).

Separately, a small enumerator (`all_possible_subgraphs_edges`) lists every non-empty set of ordered vertex pairs over 1..num and counts them.

Modules, in dependency order:

- `Seqs`, `Combinatorics`: sequence helpers.
  - `Combinations(s, m)` mirrors the combinations order of the Python iterator.
- `CombinationOrder`: that order made explicit: the combinations are read at position tuples that strictly increase in lexicographic order.
  - `SubsetsBySize` lists the combinations size by size.
  - `OrderedPairs(k)` lists the loop-free pairs over 1..k in lexicographic order.
  - The binomial counts, including 2^n − 1 non-empty subsets.
- `Digraphs`: a graph is a value made of its vertex list in insertion order and its edge list in insertion order.
  - `FromEdges` is building a graph from a list of edges.
  - `Induced` is the induced subgraph.
  - `EdgeListing` is the order in which the graph object lists its edges: vertex by vertex, then out-edges in insertion order.
- `Connectivity`:
  - `WeaklyConnected` is the definition: an undirected walk joins every pair of vertices.
  - `IsWeaklyConnected` decides it by a closure computation and is proved equal to the definition.
- `Isomorphism`:
  - `Isomorphic` is the definition: an edge-preserving bijection of the vertex sets exists.
  - `AreIsomorphic` decides it by a backtracking search and is proved equal to the definition.
  - Isomorphism is proved to be an equivalence relation.
- `Template`: the complete loop-free graph on 1..k, built by the nested loop of the source.
- `Motifs`: the catalogue as a definition (`Catalogue`, `MotifCatalogue`), the imperative search that builds it (`FindAllPossibleMotifs`), and its properties.
- `Sampler`: the induced-subgraph sampler and its properties.
- `Census`: the class-by-class counting loop against the isomorphism classes, and the total of the counts.
- `Report`, `ReportProperties`: the report's lines as a definition, the line-building method proved to produce exactly them, and what they say.
- `Text`: how decimal numerals are rendered and read back, and how lines are joined with newlines and split again.
- `Validation`: the two validators.
- `EdgeSubsets`: the ordered-pair subset enumerator.

The three copies of `motif_counter.py` are the same in every function modelled here: lines 1–233 are identical. The table cites them through `Ex2_Q2/motif_counter.py`. The validators appear only in that copy.

Modelling choices:

- The graph library's connectivity, isomorphism and subgraph functions are replaced by the definitions above.
- The census dictionary is keyed by catalogue position rather than by graph object, because graph objects hash by identity. Iteration order is still catalogue order, so the report is unchanged.
- A candidate motif's vertices are only the endpoints of its chosen edges (`Ex2_Q2/motif_counter.py:63-64`). The model follows the code, although the functions' comments speak of motifs of k vertices:
  - the catalogue of size k can hold graphs on fewer than k vertices;
  - for k = 2 it holds two motifs, the single edge and the mutual pair;
  - for k = 3 it also holds the two-vertex mutual pair;
  - `MotifsShape` states the vertex set as the endpoints and does not claim k vertices;
  - such a motif can never match a sampled subgraph on k vertices, so its count stays zero.

## Model

| member | source | states |
|---|---|---|
| Template.CompleteTemplate | Ex2_Q2/motif_counter.py:50-57 | the nested loop builds exactly the graph obtained by adding the ordered pairs of distinct vertices of 1..k in lexicographic order |
| Template.AddRow | Ex2_Q2/motif_counter.py:54-57 | one pass of the inner loop adds the row (i, 1..k) without (i, i), and the vertices gained so far |
| Template.TemplateVertexOrder | Ex2_Q2/motif_counter.py:53-57 | the template's vertices are 1, 2, …, k in that order |
| Template.TemplateListing | Ex2_Q2/motif_counter.py:57-62 | the template lists its edges in the same lexicographic order they were added |
| Combinatorics.OrderedPairsProps | Ex2_Q2/motif_counter.py:53-57 | the template's edges are exactly the pairs (i, j) with i ≠ j in 1..k; there are k·(k−1) of them, with no self-loop, sorted lexicographically and distinct |
| Combinatorics.RowsLength | Ex2_Q2/motif_counter.py:53-57 | the first n rows of the pair table hold n·(k−1) pairs |
| Combinatorics.Combinations | Ex2_Q2/motif_counter.py:62 | there are C(\|s\|, m) combinations of m elements, each of length m and a subsequence of s |
| Combinatorics.CombinationsComplete | Ex2_Q2/motif_counter.py:62 | every subsequence of s of length m is one of the combinations of size m |
| CombinationOrder.CombinationsOrder | Ex2_Q2/motif_counter.py:62 | the i-th combination of s is s read at the i-th tuple of positions, and those position tuples strictly increase in lexicographic order; the sampler's vertex sets at line 100 come in the same order |
| CombinationOrder.TuplesIncrease | Ex2_Q2/motif_counter.py:62 | the combinations of a strictly increasing sequence strictly increase in lexicographic order |
| CombinationOrder.CombinationsMap | Ex2_Q2/motif_counter.py:62 | renaming the elements and then taking combinations renames the combinations: the order depends only on positions, not on the values |
| Combinatorics.SubsetsBySize | Ex2_Q2/motif_counter.py:61-62 | collecting combinations size by size gives subsequences of s whose sizes lie in [lo, hi] and never decrease |
| Combinatorics.SubsetsBySizeComplete | Ex2_Q2/motif_counter.py:61-62 | every subsequence of s whose size lies in [lo, hi] is collected |
| Combinatorics.NonEmptySubsetsCount | Ex2_Q1/Ex2_Q1.py:10-14 | collecting the combinations of sizes 1..\|s\| gives 2^\|s\| − 1 edge sets |
| Combinatorics.SumBinomRow | Ex2_Q1/Ex2_Q1.py:10-14 | the binomial coefficients C(n, 0..n) add up to 2^n |
| Digraphs.FromEdgesWellFormed | Ex2_Q2/motif_counter.py:63-64 | a graph built from distinct edges is a simple graph whose vertices are exactly the endpoints of its edges |
| Digraphs.NodeOrderProps | Ex2_Q2/motif_counter.py:63-64 | adding edges one by one gives distinct vertices, exactly the edges' endpoints |
| Digraphs.EdgesWithin | Ex2_Q2/motif_counter.py:101 | the induced edges are exactly the host's edges with both endpoints chosen, in the host's order |
| Digraphs.InducedWellFormed | Ex2_Q2/motif_counter.py:101 | an induced subgraph of a simple graph on distinct vertices is a simple graph |
| Digraphs.EdgeListingElems | Ex2_Q2/motif_counter.py:213-214 | listing a graph's edges shows each of its edges and nothing else |
| Connectivity.IsWeaklyConnected | Ex2_Q2/motif_counter.py:65 | the closure test answers true exactly when every pair of vertices is joined by an undirected walk |
| Connectivity.ClosureDecidesConnectivity | Ex2_Q2/motif_counter.py:65 | the vertices reachable from the first vertex are all the vertices exactly when the graph is weakly connected |
| Connectivity.SameSetsConnected | Ex2_Q2/motif_counter.py:102 | weak connectivity depends only on the sets of vertices and edges, not on their order |
| Isomorphism.AreIsomorphic | Ex2_Q2/motif_counter.py:123-124 | the search answers true exactly when an edge-preserving bijection between the vertex sets exists |
| Isomorphism.SearchDecides | Ex2_Q2/motif_counter.py:123-124 | equal vertex and edge counts plus a successful search decide isomorphism, in both directions |
| Isomorphism.SearchSound | Ex2_Q2/motif_counter.py:123-124 | any assignment the search returns is an isomorphism |
| Isomorphism.SearchComplete | Ex2_Q2/motif_counter.py:123-124 | the search succeeds whenever an isomorphism extends the partial assignment |
| Isomorphism.IsomorphicSameSize | Ex2_Q2/motif_counter.py:123-124 | isomorphic graphs have as many vertices and as many edges as each other |
| Isomorphism.IsomorphicReflexive | Ex2_Q2/motif_counter.py:123-124 | every graph is isomorphic to itself |
| Isomorphism.IsomorphicSymmetric | Ex2_Q2/motif_counter.py:123-124 | isomorphism is symmetric |
| Isomorphism.IsomorphicTransitive | Ex2_Q2/motif_counter.py:123-124 | isomorphism is transitive |
| Isomorphism.SameEdgesIsomorphic | Ex2_Q2/motif_counter.py:63-64 | two edge lists with the same elements build isomorphic graphs |
| Motifs.FindAllPossibleMotifs | Ex2_Q2/motif_counter.py:47-76 | the nested loops return exactly the catalogue: the candidates of k−1 up to k·(k−1) edges, in order, each kept when weakly connected and new up to isomorphism |
| Motifs.ConsiderAll | Ex2_Q2/motif_counter.py:62-74 | considering a batch of candidates extends the catalogue exactly by those accepted |
| Motifs.Consider | Ex2_Q2/motif_counter.py:63-74 | one candidate is appended exactly when its graph is weakly connected and isomorphic to no motif kept so far |
| Motifs.IsUnique | Ex2_Q2/motif_counter.py:67-71 | the scan with early exit reports "unique" exactly when no kept motif is isomorphic to the candidate |
| Motifs.CandidatesShape | Ex2_Q2/motif_counter.py:60-62 | every candidate has k−1..k·(k−1) distinct edges of the template, drawn in the template's order |
| Motifs.MotifsShape | Ex2_Q2/motif_counter.py:62-65 | every motif is a simple, weakly connected graph built from its own edges; its vertices are exactly their endpoints, and its edges are k−1..k·(k−1) template edges in template order |
| Motifs.MotifsPairwiseNonIsomorphic | Ex2_Q2/motif_counter.py:67-74 | no two distinct catalogue motifs are isomorphic |
| Motifs.MotifsEdgeCountsAscending | Ex2_Q2/motif_counter.py:60-61 | edge counts never decrease along the catalogue |
| Motifs.SelfLoopMatchesNoMotif | Ex2_Q2/motif_counter.py:53-57 | a graph with a self-loop is isomorphic to no motif, since an isomorphism carries the loop to a loop and the template has none |
| Motifs.MotifsExhaustive | Ex2_Q2/motif_counter.py:60-74 | every weakly connected graph of at least k−1 distinct template edges is isomorphic to some catalogue motif |
| Motifs.CataloguePrefix | Ex2_Q2/motif_counter.py:67-74 | the catalogue only grows by appending: later candidates never move or drop an earlier motif |
| Motifs.CatalogueOrigin | Ex2_Q2/motif_counter.py:63-65 | every motif is weakly connected and is the graph of one of the candidates |
| Motifs.CatalogueNonIsomorphic | Ex2_Q2/motif_counter.py:67-74 | whatever the candidates, the kept motifs are pairwise non-isomorphic |
| Motifs.CatalogueExhaustive | Ex2_Q2/motif_counter.py:65-74 | every weakly connected candidate is isomorphic to some kept motif |
| Motifs.CatalogueEdgeCountsAscending | Ex2_Q2/motif_counter.py:60-61 | candidates in non-decreasing size give motifs in non-decreasing edge count |
| Sampler.FindAllSubgraphs | Ex2_Q2/motif_counter.py:94-105 | the loop returns exactly the weakly connected induced subgraphs on the vertex combinations, in combination order |
| Sampler.SubgraphsShape | Ex2_Q2/motif_counter.py:100-103 | each sample has exactly `size` vertices drawn in the host's vertex order, is simple and weakly connected, and its edges are exactly the host's edges with both endpoints chosen |
| Sampler.SubgraphsComplete | Ex2_Q2/motif_counter.py:100-105 | the samples are a subsequence of the induced subgraphs in combination order, at most C(n, size) of them, and every weakly connected induced subgraph on `size` vertices is among them |
| Sampler.SampledSound | Ex2_Q2/motif_counter.py:101-103 | every sample is weakly connected and induced on one of the vertex lists |
| Sampler.SampledComplete | Ex2_Q2/motif_counter.py:101-103 | every weakly connected induced subgraph on a listed vertex set is sampled |
| Sampler.WholeSample | Ex2_Q2/motif_counter.py:100-103 | a weakly connected simple graph sampled at its own vertex count yields exactly itself |
| Sampler.SelfLoopHost | Ex2_Q2/motif_counter.py:19-28 | the host read from the edges (a, a), (a, b), (b, c) keeps its loop and has vertices a, b, c; it is simple and weakly connected |
| Sampler.SampledInOrder | Ex2_Q2/motif_counter.py:100-105 | the samples keep the vertex lists' order, and there are no more samples than lists |
| Census.CountMotifs | Ex2_Q2/motif_counter.py:142-175 | the keys are exactly the motif positions, and every subgraph position ends processed; each count is zero or the size of one isomorphism class of a subgraph isomorphic to that motif; for pairwise non-isomorphic motifs each count is the number of subgraphs isomorphic to the motif |
| Census.ScanClass | Ex2_Q2/motif_counter.py:157-167 | the inner scan marks exactly the class of subgraph i as processed, and its count is the size of that class |
| Census.Indices | Ex2_Q2/motif_counter.py:149-150 | the initial keys are exactly the positions 0..n−1 |
| Census.IndicesCard | Ex2_Q2/motif_counter.py:149-150 | there are n initial keys |
| Census.ProcessedDone | Ex2_Q2/motif_counter.py:153-167 | after the last subgraph every position 0..len−1 is processed |
| Census.ClassSizePositive | Ex2_Q2/motif_counter.py:157-158 | a class holds its representative, so every class count is at least 1 |
| Census.ClassesDisjoint | Ex2_Q2/motif_counter.py:155-167 | two isomorphism classes are equal or disjoint, so no position is counted in two classes |
| Census.ClassIsMatchSet | Ex2_Q2/motif_counter.py:170-173 | the class of a subgraph isomorphic to a motif is exactly the set of subgraphs isomorphic to that motif |
| Census.CountsDone | Ex2_Q2/motif_counter.py:170-175 | when the motifs are pairwise non-isomorphic, the final counts are the match counts |
| Census.MotifCatalogueNonIsomorphic | Ex2_Q2/motif_counter.py:67-74 | the catalogue meets the census's non-isomorphism hypothesis |
| Census.CensusTotal | Ex2_Q2/motif_counter.py:149-173 | when every subgraph matches some motif, the counts add up to the number of subgraphs |
| Census.CensusShortfall | Ex2_Q2/motif_counter.py:168-173 | a subgraph isomorphic to no motif is counted nowhere, so the counts add up to less than the number of subgraphs |
| Census.CensusTotalExact | Ex2_Q2/motif_counter.py:149-173 | the counts add up to the number of subgraphs exactly when every subgraph matches some motif |
| Census.SelfLoopSampleUncounted | Ex2_Q2/motif_counter.py:157-173 | when a sample of a simple host holds a self-loop, the census counts add up to less than the number of samples |
| Census.TotalCovered | Ex2_Q2/motif_counter.py:170-173 | the counts of the first n motifs add up to the number of subgraphs matching one of them |
| Census.CoveredStep | Ex2_Q2/motif_counter.py:170-173 | one more motif adds its matches, and they match none of the earlier motifs |
| Report.PrintFormattedOutput | Ex2_Q2/motif_counter.py:193-231 | the returned text is exactly the report's lines joined by newlines |
| Report.AppendHeader | Ex2_Q2/motif_counter.py:194-208 | the first six lines are the motif size, the number of motifs, the two tallies, a blank line and the first heading |
| Report.CountOnSide | Ex2_Q2/motif_counter.py:198-199 | each counting pass returns the number of motifs with a count above zero, or of zero |
| Report.AppendHalf | Ex2_Q2/motif_counter.py:206-228 | each printing loop appends exactly the blocks of its half in catalogue order, numbered on from the running number, and returns the next number |
| Report.AppendMotif | Ex2_Q2/motif_counter.py:209-228 | one loop turn appends the motif's block when the motif is on the loop's side, and nothing otherwise |
| Report.AppendBlock | Ex2_Q2/motif_counter.py:211-216 | one block is "#ordinal", "count=c", one line per edge, and an empty line |
| Report.AppendEdges | Ex2_Q2/motif_counter.py:213-214 | the edge lines are one "u v" line per edge, in listing order |
| Report.RenderedAt | Ex2_Q2/motif_counter.py:213-214 | each motif's edge lines are the lines of its own edge listing |
| ReportProperties.PositionsSpec | Ex2_Q2/motif_counter.py:209-210 | a half lists exactly the motifs on its side, in catalogue order |
| ReportProperties.TallyIsSize | Ex2_Q2/motif_counter.py:198-199 | a side's count is the number of motifs that half lists |
| ReportProperties.PositionsPartition | Ex2_Q2/motif_counter.py:209-222 | every motif is listed in exactly one of the two halves |
| ReportProperties.TallyPartition | Ex2_Q2/motif_counter.py:198-203 | existing plus non-existing motifs equal the number of motifs |
| ReportProperties.HalfIsBlocks | Ex2_Q2/motif_counter.py:206-228 | a half is the blocks of the positions on its side, numbered consecutively from its start |
| ReportProperties.OrdinalRun | Ex2_Q2/motif_counter.py:211 | a run of c ordinal lines reads #start, #start+1, … |
| ReportProperties.OrdinalsAppend | Ex2_Q2/motif_counter.py:211 | the ordinal lines of concatenated text are those of each part in turn |
| ReportProperties.BlockOrdinals | Ex2_Q2/motif_counter.py:211-216 | a block holds exactly one ordinal line, its own number |
| ReportProperties.HeaderOrdinals | Ex2_Q2/motif_counter.py:195-208 | the header holds no ordinal line |
| ReportProperties.HalfOrdinals | Ex2_Q2/motif_counter.py:206-228 | a half's ordinal lines run consecutively from its start number, one per listed motif |
| ReportProperties.ReportOrdinals | Ex2_Q2/motif_counter.py:206-228 | the blocks of the whole report are numbered 1 to the number of motifs, existing motifs first, each number once |
| ReportProperties.EdgeLinesPlain | Ex2_Q2/motif_counter.py:213-214 | an edge line is never an ordinal line and has no newline |
| ReportProperties.RenderedPlain | Ex2_Q2/motif_counter.py:213-214 | no motif's edge lines hold an ordinal line or a newline |
| ReportProperties.ReportSplits | Ex2_Q2/motif_counter.py:231 | splitting the text at newlines gives back exactly the report's lines |
| ReportProperties.ReportHeaderLines | Ex2_Q2/motif_counter.py:195-203 | read back line by line, the text starts with "n=k", "count=n", the existing count and the non-existing count, and the two counts add up to n |
| Text.NatToStringRoundTrip | Ex2_Q2/motif_counter.py:201-203 | a rendered count reads back as the same number |
| Text.NatToStringInjective | Ex2_Q2/motif_counter.py:211 | different numbers render differently |
| Text.IntToStringRoundTrip | Ex2_Q2/motif_counter.py:195 | a rendered integer, sign included, reads back as the same integer |
| Text.JoinSplitRoundTrip | Ex2_Q2/motif_counter.py:231 | joining lines without newlines and splitting the result again gives the lines back |
| Validation.ValidateMotifSize | Ex2_Q2/motif_counter.py:250-265 | the verdict is true exactly for an integer (given or read from text) above zero; the message is empty exactly then, and otherwise one of the three size messages |
| Validation.MotifSizeMessages | Ex2_Q2/motif_counter.py:251-263 | "must be a number" exactly for unreadable text, "must be an integer" exactly for a non-integer, "must be a positive number" exactly for an integer of at most zero |
| Validation.ValidateGraphSize | Ex2_Q2/motif_counter.py:327-331 | the verdict is true exactly when the graph has at least as many vertices as the motif size; the message is empty exactly then, and otherwise starts "Graph has only " |
| Validation.GraphSizeMessageNumbers | Ex2_Q2/motif_counter.py:330 | the failure message names the number of vertices and the motif size, and both numerals read back as those numbers |
| EdgeSubsets.AllPossibleSubgraphsEdges | Ex2_Q1/Ex2_Q1.py:4-14 | the pairs are the ordered pairs over 1..num, the result is their combinations of sizes 1..len(pairs) in size order, and the count is the result's length |
| EdgeSubsets.AppendCombinations | Ex2_Q1/Ex2_Q1.py:12-14 | the inner loop appends the combinations of one size in order and counts each one |
| EdgeSubsets.EdgeSubsetsSpec | Ex2_Q1/Ex2_Q1.py:5-14 | every element is a non-empty subsequence of the pairs; sizes never decrease; no non-empty subsequence is missed; there are num·(num−1) pairs (none for num ≤ 0) and 2^(num·(num−1)) − 1 elements |
| EdgeSubsets.SingleVertexEnumeratesNothing | Ex2_Q1/Ex2_Q1.py:5-10 | for num = 1 there are no pairs and the result is empty, so the count is 0 |

## Left out

- File reading and the interactive driver (`read_graph`, `validate_graph_file`, `main`, the `input` prompts and `print`): these are input and output. The census starts from a graph value, and the report is returned as text.
- The graph library: its connectivity, isomorphism and subgraph functions are replaced by the definitions in `Connectivity` and `Isomorphism`, and by `Induced`. Its own algorithms are not part of this model.
- Motif size 1: the source hands an empty graph to the connectivity test, and the library raises an exception. `FindAllPossibleMotifs` requires k ≥ 2, and `FindAllSubgraphs` requires a size of at least 1.
- Validation.ValidateMotifSize: Python's `int()` reading of text is not modelled. The input arrives already classified as readable text with its value, unreadable text, an integer, or a non-integer. Python's booleans, which count as integers, are not distinguished.
- Validation.ValidateGraphSize: it takes the motif size as an integer. The driver at `Ex2_Q2/motif_counter.py:356` passes it the unconverted text, where comparing an integer with text raises a type error; that failure is not modelled.
- The `np.squeeze` reshaping and the printing in `all_possible_subgraphs_edges`: each element of the result is kept as a list of pairs.
- The floating-point formula printed at `Ex2_Q1/Ex2_Q1.py:25-26`: it is floating-point output unrelated to the enumeration.
- Census.CountMotifs: the counts are keyed by catalogue position rather than by graph object. The set of processed positions, which is local to the source function, is returned as a second result so that its final state can be stated.
- Census.CensusTotal: the counts add up to the number of subgraphs only under the source's own hypothesis, that every subgraph is isomorphic to some motif. That hypothesis fails on hosts with self-loops. The graph reader accepts an edge (v, v), and a sample holding one matches no motif (`SelfLoopMatchesNoMotif`), so `count_motifs` drops its class (`SelfLoopSampleUncounted`). The host read from (a, a), (a, b), (b, c), sampled at size 3, is such a case (`SelfLoopHost`, `WholeSample`). For loop-free hosts the model does not prove that the hypothesis holds. A sample whose vertex labels are not 1..k needs relabelling before `MotifsExhaustive` applies, and it must have at least k − 1 edges. Neither step is proved.
- Report.PrintFormattedOutput: the report functions take each motif's edge lines as given. `RenderedPlain` shows that the lines the report renders meet the requirements of `ReportOrdinals`, `ReportSplits` and `ReportHeaderLines`.
- Fixed-width integers do not arise: all counts and numbers in the source are unbounded Python integers, and so are they here.
