# dRep clustering core (d_cluster.py) in Dafny

This project models the clustering step of dRep's two-tier genome dereplication pipeline. Both tiers are modelled:

- the coarse tier, which builds a MASH threshold graph and takes its connected components;
- the fine tier, whose parts are:
  - NUCmer job generation;
  - reading the `.delta` alignment files back;
  - the identity and coverage metrics;
  - fine clustering inside each coarse cluster, under `"<coarse>_<fine>"` labels.

The pandas tables are sequences of records (`tables.dfy`). A `.delta` file is a sequence of lines, and each line is a sequence of tokens. The networkx graph is a class over an adjacency map. The connected components come from a breadth-first search.

| file | module | what it holds |
|---|---|---|
| `wrappers.dfy` | `Wrappers` | `Option` and `Result`, for the exceptions the source raises |
| `text.dfy` | `Text` | `os.path.basename`, the root of `os.path.splitext`, `str.split`, `str(n)` and `int(s)` on decimal integers |
| `tables.dfy` | `Tables` | the row types of Bdb, Mdb, Ndb, Cdb and the cluster tables, plus `Series.unique`, column and filter helpers |
| `delta.dfy` | `Delta` | `parse_delta`, the metrics of one alignment, and `process_deltadir` |
| `nucmer.dfy` | `Nucmer` | `gen_nucmer_cmd`, `nucmer_preset`, `gen_nucmer_commands`, and how the output file names are read back |
| `graph.dfy` | `Graphs` | the `Graph` class (`add_node`, `add_edge`), `make_graph`, `make_graph_anin`, `cluster_graph` and `cluster_database` |
| `fine.dfy` | `FineTier` | the coverage filter, `average_ani`, labels, `gen_cdb_from_fclust`, `gen_nomash_cdb`, `cluster_anin_simple` and `cluster_anin_database` |

The code works step by step, and the model follows it:

- `parse_delta`, `process_deltadir`, `gen_nucmer_commands`, `cluster_graph`, `make_graph*`, `gen_cdb_from_fclust` and the two `cluster_anin_*` functions loop, and are methods with loops. `gen_nucmer_cmd` builds its list by appending, without a loop, and is a method too.
- Some of these methods are proved equal to a specification function, and the properties are then proved about that function:
  - `Delta.ParseDelta` equals `DeltaTotals`;
  - `Delta.ProcessDeltaDir` equals `DeltaDirTable`;
  - `FineTier.ClusterAninDatabase` equals `DatabaseTable`;
  - `FineTier.FilterCoverage` leaves the array equal to `CoverageFiltered` of its old contents;
  - `Graphs.MakeGraph` and `Graphs.MakeGraphAnin` leave an adjacency equal to `MashGraph` and `AninGraph`. Of the node order they fix only that the seed nodes come first.
- The others are specified by a postcondition that relates the result to the input, position by position or as a relation:
  - `Nucmer.GenNucmerCmd` satisfies the field-by-field predicate `IsNucmerCmd`;
  - `Nucmer.GenNucmerCommands` states its i-th command in terms of the i-th pair of `CrossPairs`;
  - `FineTier.GenCdbFromFclust` pairs the i-th label with the i-th name;
  - `Graphs.ClusterGraph` and `Graphs.ClusterComponents` state a partition of the nodes by connectivity, with labels that rise in steps from 0;
  - `FineTier.ClusterAninSimple` states its result through a ghost labelling of each coarse cluster's graph by components.
- The coverage filter assigns in place, so it works on an `array`.
- `average_ani`, `nucmer_preset`, basename and `gen_nomash_cdb` are functions.

Where the code and its informal description disagree, the model follows the code:

- **Graph nodes.** networkx `add_edge` adds any endpoint that is not yet a node. So the nodes of `make_graph` are the distinct `genome1` values plus the `genome2` of every row above the threshold. For `make_graph_anin` they are the distinct `reference` values plus the `querry` of every row above both thresholds. They are not the `genome1` or `reference` values alone; see `Graphs.MashGraphNodes` and `Graphs.AninGraphNodes`.
- **Exceptions escape.** `process_deltadir` guards only the identity division. A genome missing from `org_lengths`, a zero genome length, a file name that does not split into exactly two names, a blank line, or a token `int()` rejects all raise. Each is an `Err` of the model.
- **Reversed names.** The file `outf + g1 + "_vs_" + g2` comes from the run with reference `g1` and query `g2`. `process_deltadir` nevertheless reads its first name as `querry` and its second as `reference`. The model keeps both namings as written.

## Model

| member | source | states |
|---|---|---|
| Text.Basename | drep_modules/d_cluster.py:564-565 | defines `os.path.basename`, the part of the path after its last '/'. Its properties are in `BasenameSpec` and `BasenameOfJoin` |
| Text.BasenameSpec | drep_modules/d_cluster.py:564-565 | the genome name is the part of the path after its last '/': it has no '/', ends the path, and is the whole path or follows a '/' |
| Text.BasenameOfJoin | drep_modules/d_cluster.py:609 | the basename of `dir + name` is `name` when `dir` is empty or ends in '/' and `name` has no '/' |
| Text.Split | drep_modules/d_cluster.py:609 | defines `str.split(sep)` from left to right; the result has at least one piece. Its properties are in `SplitJoin`, `SplitPiecesClean` and `SplitVsPair` |
| Text.SplitJoin | drep_modules/d_cluster.py:609 | joining the pieces of `str.split(sep)` with `sep` gives back the string |
| Text.SplitPiecesClean | drep_modules/d_cluster.py:609 | no piece of `str.split(sep)` contains `sep` |
| Text.SplitVsPair | drep_modules/d_cluster.py:609 | `a + "_vs_" + b` splits into exactly `[a, b]` when neither name holds "_vs_" and `a` does not end in "_vs" |
| Text.SplitVsAmbiguous | drep_modules/d_cluster.py:609 | `"a_vs" + "_vs_" + "b"` splits as `["a", "vs_b"]`, so a first name that ends in "_vs" is not recovered |
| Text.StripExtension | drep_modules/d_cluster.py:609 | defines the root of `os.path.splitext`, where a name whose dots all lead keeps its whole name. Its properties are in `StripExtensionSpec` and `StripDeltaExtension` |
| Text.StripExtensionSpec | drep_modules/d_cluster.py:609 | the root of `splitext` is a prefix of the name: either the whole name, or the name cut at its last '.' |
| Text.StripDeltaExtension | drep_modules/d_cluster.py:609 | the root of `stem + ".delta"` is `stem`, for any stem that is not made only of dots |
| Text.ParseInt | drep_modules/d_cluster.py:581-582 | `int(token)` succeeds exactly on one or more digits, optionally after a sign |
| Text.ParseIntToString | drep_modules/d_cluster.py:581-582 | `int(str(n)) == n` for every integer n |
| Text.NatToStringDigits | drep_modules/d_cluster.py:308 | `str(n)` for n >= 0 is a non-empty run of digits without a leading zero |
| Text.IntToStringClean | drep_modules/d_cluster.py:308 | `str(n)` holds neither '_' nor '/' |
| Text.IntToStringInjective | drep_modules/d_cluster.py:308 | different integers have different `str` |
| Tables.Unique | drep_modules/d_cluster.py:276 | `Series.unique()` has no repeats and holds exactly the values of the column |
| Tables.UniqueFirstAppearance | drep_modules/d_cluster.py:276 | `Series.unique()` keeps the order of first appearance: value i occurs in the column before value j first does, for i < j |
| Delta.LineTotals | drep_modules/d_cluster.py:577-582 | a line adds nothing unless it is a seven-field non-header record; it fails exactly when it is blank or a record's fields 0, 1 or 4 are not integers |
| Delta.ParseDelta | drep_modules/d_cluster.py:575-583 | the loop's result is the fold of LineTotals over the lines, in order |
| Delta.DeltaTotalsAppend | drep_modules/d_cluster.py:575-583 | the totals of two runs of lines in a row combine the totals of each |
| Delta.DeltaTotalsOk | drep_modules/d_cluster.py:576-582 | a file parses exactly when each of its lines does |
| Delta.ErrorPrefix | drep_modules/d_cluster.py:576-582 | the first failing line decides the result: an error on a prefix is the error of the whole file |
| Delta.OnlyRecordsCount | drep_modules/d_cluster.py:577-580 | with no blank line, the totals are those of the seven-field records alone: headers and other lines contribute nothing |
| Delta.DeltaTotalsAreSums | drep_modules/d_cluster.py:580-582 | the totals are the sum of `abs(tok[1] - tok[0])` and the sum of `tok[4]` over the records; the aligned length is never negative |
| Delta.Identity | drep_modules/d_cluster.py:621-626 | defines `perc_id = 1 - errors/length`, and 0 in place of the ZeroDivisionError of an empty alignment. Its properties are in `IdentityBounds` and `MetricsSwap` |
| Delta.IdentityBounds | drep_modules/d_cluster.py:621-626 | with 0 <= errors <= length, identity lies in [0, 1]; for a non-empty alignment it is 1 exactly when there are no errors |
| Delta.AlignmentCoverageBetween | drep_modules/d_cluster.py:614-638 | `alignment_coverage` lies between `querry_coverage` and `ref_coverage` |
| Delta.AlignmentCoverageHarmonic | drep_modules/d_cluster.py:637-638 | `alignment_coverage` is the harmonic mean of the two single-genome coverages |
| Delta.MetricsSwap | drep_modules/d_cluster.py:614-638 | swapping the two genomes swaps the two single-genome coverages and leaves `alignment_coverage` and identity unchanged |
| Delta.PairFromDeltaPath | drep_modules/d_cluster.py:609 | defines the `(qname, sname)` unpacking of the split stem, or the ValueError. Its properties are in `PairFromDeltaPathSpec` and `Nucmer.DeltaNameRoundTrip` |
| Delta.PairFromDeltaPathSpec | drep_modules/d_cluster.py:609 | the recovered names are the two sides of the only "_vs_" in the extension-less basename; any other stem is the ValueError |
| Delta.GenomeLength | drep_modules/d_cluster.py:614-615 | a genome length can be divided by exactly when the genome is in `org_lengths` with a non-zero length (else KeyError or ZeroDivisionError) |
| Delta.DeltaRow | drep_modules/d_cluster.py:609-638 | defines one file's Ndb row from its names, its totals, the two lengths and the metrics, raising in the source's order. Its properties are in `ProcessDeltaFile` and `DeltaDirOneRowPerFile` |
| Delta.ProcessDeltaFile | drep_modules/d_cluster.py:609-638 | the row for one file, or the exception, is DeltaRow of the file |
| Delta.ProcessNextFile | drep_modules/d_cluster.py:608-638 | one turn of the loop appends the file's row, or yields the exception that ends the whole directory |
| Delta.ProcessDeltaDir | drep_modules/d_cluster.py:599-641 | the table is DeltaDirTable: the files' rows in order, or the first file's exception |
| Delta.DeltaDirOneRowPerFile | drep_modules/d_cluster.py:608-638 | the table has exactly one row per `.delta` file, the i-th row being the i-th file's; an error is that of the first failing file |
| Nucmer.GenNucmerCmd | drep_modules/d_cluster.py:643-647 | the vector is `nucmer, --method, -p, prefix, -c, str(c), -g, str(maxgap)`, then `--noextend` exactly when asked, with ref and querry last |
| Nucmer.ParseNucmerCmdRoundTrip | drep_modules/d_cluster.py:643-647 | a vector built for a job reads back as that job |
| Nucmer.NucmerCmdUnique | drep_modules/d_cluster.py:643-647 | two vectors are equal exactly when their jobs are equal |
| Nucmer.NucmerPreset | drep_modules/d_cluster.py:713-722 | `tight` gives (65, 1, True, 'mum') and `normal` gives (65, 90, False, 'mum'); any other name fails the assertion |
| Nucmer.PresetCommandLine | drep_modules/d_cluster.py:713-722 | a preset's command has `--mum`, `-c 65`, and `-g 1` for tight or `-g 90` for normal; it has 11 fields, including `--noextend`, exactly for tight |
| Nucmer.RowIndex | drep_modules/d_cluster.py:409-411 | the inner loop gives one pair `(g1, genomes[b])` per genome, in order |
| Nucmer.CrossPairsLength | drep_modules/d_cluster.py:406-413 | the nested loops give `|outer| * |inner|` pairs |
| Nucmer.CrossPairsAt | drep_modules/d_cluster.py:408-409 | position `a * n + b` holds `(genomes[a], genomes[b])`: the outer genome varies slowest |
| Nucmer.AppendRowCommands | drep_modules/d_cluster.py:409-411 | the inner loop appends the command of `(g1, g2)` for each g2, in order |
| Nucmer.GenNucmerCommands | drep_modules/d_cluster.py:406-413 | one command per ordered pair of the cross product, in order, each with its prefix, g1 as ref and g2 as query |
| Nucmer.CommandAt | drep_modules/d_cluster.py:406-413 | there are n² commands; command `i * n + j` has prefix `outf + basename(g_i) + "_vs_" + basename(g_j)`, ref `g_i` and query `g_j` |
| Nucmer.DeltaFileName | drep_modules/d_cluster.py:410 | the basename of a run's `.delta` file is `basename(g1) + "_vs_" + basename(g2) + ".delta"` when `outf` is empty or ends in '/' |
| Nucmer.DeltaFileStem | drep_modules/d_cluster.py:410 | the extension-less basename of that file is `basename(g1) + "_vs_" + basename(g2)` |
| Nucmer.DeltaNameRoundTrip | drep_modules/d_cluster.py:410 | process_deltadir reads `(basename(g1), basename(g2))` back from the `.delta` file of the run's prefix |
| Nucmer.CommandsCoverAllRows | drep_modules/d_cluster.py:406-413 | command `i * n + j` parses back to ref `g_i` and query `g_j`, and its `.delta` file names `(basename(g_i), basename(g_j))` |
| Graphs.LinkSpec | drep_modules/d_cluster.py:549 | `add_edge` makes both ends nodes and adds each end to the other's neighbours, changing nothing else |
| Graphs.LinkUndirected | drep_modules/d_cluster.py:549 | `add_edge` keeps every edge recorded at both ends |
| Graphs.Graph.constructor | drep_modules/d_cluster.py:543 | `nx.Graph()` has no nodes and no edges |
| Graphs.Graph.AddNode | drep_modules/d_cluster.py:544-545 | `add_node` appends a new node with no neighbours and leaves an existing node alone |
| Graphs.Graph.AddEdge | drep_modules/d_cluster.py:549 | `add_edge` appends the ends that are not yet nodes and links the two ends |
| Graphs.EdgeGraphNode | drep_modules/d_cluster.py:542-550 | the nodes of a graph built from seed nodes and then edges are the seeds and the edge ends |
| Graphs.EdgeGraphEdge | drep_modules/d_cluster.py:542-550 | two nodes are neighbours exactly when some added edge joins them, either way round |
| Graphs.EdgeGraphUndirected | drep_modules/d_cluster.py:542-550 | such a graph is undirected |
| Graphs.MashEdgesSpec | drep_modules/d_cluster.py:546-549 | an edge of `make_graph` comes from a row whose similarity is strictly above the threshold, and every such row gives one |
| Graphs.AddSeeds | drep_modules/d_cluster.py:544-545 | adding the distinct `genome1` values gives a graph of exactly those nodes, in order, with no edges |
| Graphs.AddMashRow | drep_modules/d_cluster.py:547-549 | one row adds its edge exactly when its similarity is above the threshold |
| Graphs.AddMashEdges | drep_modules/d_cluster.py:546-549 | the edge loop gives the graph of all the rows' edges |
| Graphs.MakeGraph | drep_modules/d_cluster.py:542-550 | `make_graph` builds MashGraph: the distinct `genome1` values come first among the nodes |
| Graphs.MashGraphNodes | drep_modules/d_cluster.py:542-550 | the nodes are the `genome1` values and the `genome2` of each row above the threshold |
| Graphs.MashGraphEdges | drep_modules/d_cluster.py:546-549 | two nodes are neighbours exactly when a row above the threshold names them, either way round |
| Graphs.AninEdgesSpec | drep_modules/d_cluster.py:537-539 | an edge of `make_graph_anin` comes from a row with `ref_coverage > cov_thresh` and `ani > anin_thresh`, and every such row gives one |
| Graphs.AddAninRow | drep_modules/d_cluster.py:538-539 | one row adds its edge exactly when both strict thresholds pass |
| Graphs.AddAninEdges | drep_modules/d_cluster.py:537-539 | the edge loop gives the graph of all the rows' edges |
| Graphs.MakeGraphAnin | drep_modules/d_cluster.py:533-540 | `make_graph_anin` builds AninGraph: the distinct `reference` values come first among the nodes |
| Graphs.AninGraphNodes | drep_modules/d_cluster.py:533-540 | the nodes are the `reference` values and the `querry` of each row above both thresholds |
| Graphs.AninGraphEdges | drep_modules/d_cluster.py:537-539 | two nodes are neighbours exactly when a row above both thresholds names them, either way round |
| Graphs.PlainBfs | drep_modules/d_cluster.py:553 | the search from a node finds exactly the nodes connected to it: its component |
| Graphs.AppendComponent | drep_modules/d_cluster.py:557-559 | one row per node of the component, all with the current label |
| Graphs.PartitionedAdd | drep_modules/d_cluster.py:556-560 | after a new component is added, rows still share a label exactly when their genomes are connected |
| Graphs.CoversAdd | drep_modules/d_cluster.py:556-560 | the rows still cover the nodes seen, whole components of them, once each |
| Graphs.LabelStepsAdd | drep_modules/d_cluster.py:555-560 | the labels still start at 0, never decrease, and go up by at most one per row |
| Graphs.NextComponent | drep_modules/d_cluster.py:556-560 | one turn of the component loop keeps all of the above and marks the node seen |
| Graphs.ClusterComponents | drep_modules/d_cluster.py:552-562 | every node is in exactly one row, rows share a label exactly when connected, and the labels go up in steps from 0 |
| Graphs.ClusterGraph | drep_modules/d_cluster.py:552-562 | `cluster_graph` puts every node of the graph in exactly one row; same label exactly when connected; labels in steps from 0 |
| Graphs.LabelsAreRange | drep_modules/d_cluster.py:555-560 | every label from 0 up to the last one is used, so the labels are exactly 0 .. k - 1 |
| Graphs.ClusterDatabase | drep_modules/d_cluster.py:522-531 | `cluster_database` labels the MASH graph's nodes by connected component, once each, with labels in steps from 0 |
| FineTier.CoverageFilteredRow | drep_modules/d_cluster.py:281 | `ani` becomes 0 exactly when `alignment_coverage <= cov_thresh`; every other field is unchanged |
| FineTier.FilterCoverage | drep_modules/d_cluster.py:281 | the in-place assignment leaves the array equal to the filtered old contents |
| FineTier.CoverageFilterIdempotent | drep_modules/d_cluster.py:281 | filtering twice is filtering once |
| FineTier.CoverageFilterKeeps | drep_modules/d_cluster.py:281 | a non-zero `ani` after the filter is the original one, on a row above the coverage threshold; such a row is unchanged |
| FineTier.FindPair | drep_modules/d_cluster.py:709 | the first row of the table with the given reference and querry, or none |
| FineTier.AverageAni | drep_modules/d_cluster.py:702-711 | 1 for a self pair; otherwise the mean of the row's `ani` and the reverse row's, failing (IndexError) exactly when there is no reverse row |
| FineTier.AverageAniSymmetric | drep_modules/d_cluster.py:702-711 | with one row per ordered pair, a row and its reverse have the same, defined, average |
| FineTier.AvAni | drep_modules/d_cluster.py:290 | the `av_ani` column is AverageAni of each row; it fails exactly when some row does |
| FineTier.Distances | drep_modules/d_cluster.py:291 | `dist = 1 - av_ani` on every row |
| FineTier.DistancesSymmetric | drep_modules/d_cluster.py:290-291 | the distance of a self pair is 0 and a pair's distance equals its reverse's |
| FineTier.FineLabelInjective | drep_modules/d_cluster.py:308 | `"{c}_{f}"` names its pair: two labels are equal exactly when both the coarse and the fine clusters are |
| FineTier.GenCdbFromFclust | drep_modules/d_cluster.py:241-248 | row i pairs flat cluster i with name i; fewer names than labels is the IndexError |
| FineTier.NomashCdb | drep_modules/d_cluster.py:676-679 | the same rows as Bdb, in order, each with MASH cluster 0 |
| FineTier.NomashOneCluster | drep_modules/d_cluster.py:676-679 | without MASH the fine tier sees one coarse cluster, 0 |
| FineTier.MembersOfSpec | drep_modules/d_cluster.py:301-304 | the genomes listed for a fine cluster are exactly the rows with that cluster number |
| FineTier.AppendLabelled | drep_modules/d_cluster.py:304-308 | the genomes of one fine cluster are appended in order under one label |
| FineTier.AppendGroups | drep_modules/d_cluster.py:298-308 | the rows of one coarse cluster are appended, fine cluster by fine cluster |
| FineTier.ComposeSameLabel | drep_modules/d_cluster.py:308 | over distinct coarse clusters, two rows share a label exactly when they have the same coarse cluster and the same fine cluster |
| FineTier.FineTableStep | drep_modules/d_cluster.py:276-308 | the rows of coarse cluster k extend the table of the first k clusters |
| FineTier.FineTableMember | drep_modules/d_cluster.py:276-308 | the table holds exactly `(genome, "<c>_<fine>")` for each genome of each fine cluster of each coarse cluster c |
| FineTier.CoarseAlignmentsSpec | drep_modules/d_cluster.py:278 | the rows of Ndb kept for a coarse cluster are those whose reference is a genome of that cluster |
| FineTier.MergeBlockMember | drep_modules/d_cluster.py:319 | the merge rows of one fine-table row are its joins with the Cdb rows of the same genome |
| FineTier.MergeMember | drep_modules/d_cluster.py:319 | `pd.merge(Gdb, Cdb)` holds exactly the joins of rows with the same genome |
| FineTier.SimpleCluster | drep_modules/d_cluster.py:330-346 | one coarse cluster's graph is partitioned into components and its rows appended under `"<c>_<component>"` |
| FineTier.ClusterAninSimple | drep_modules/d_cluster.py:323-350 | the result is the merge with Cdb of the labelled table, where each coarse cluster's fines label its ANIn graph by component |
| FineTier.SimpleSameLabel | drep_modules/d_cluster.py:337-346 | two rows share a label exactly when they are in the same coarse cluster and connected in its ANIn graph |
| FineTier.SimpleCovers | drep_modules/d_cluster.py:333-346 | every node of a coarse cluster's ANIn graph gets a row under that cluster's label |
| FineTier.DatabaseFines | drep_modules/d_cluster.py:276-308 | when no cluster fails, there is one fine clustering per coarse cluster |
| FineTier.CoarseFine | drep_modules/d_cluster.py:278-299 | defines one coarse cluster's fine clustering: `"<c>_0"` for a single reference, the ValueError for a cluster with no alignments, and otherwise `hier` on the distances or the IndexError of `average_ani`. Its properties are in `CoarseFineError`, `DatabaseSingleton` and `DatabaseError` |
| FineTier.CoarseFineError | drep_modules/d_cluster.py:278-290 | a coarse cluster fails exactly when it has no alignments, or when it has two or more references and `average_ani` fails; a cluster with no alignments fails with the ValueError |
| FineTier.DatabaseTable | drep_modules/d_cluster.py:276-319 | defines the merged table of all coarse clusters, or the first exception. Its properties are in `DatabaseFines`, `DatabaseLabels` and `DatabaseError` |
| FineTier.DatabaseCluster | drep_modules/d_cluster.py:277-308 | one turn of the loop filters, then takes the singleton case, the no-alignment ValueError or the hierarchical case, and appends that cluster's rows or fails as CoarseFine does |
| FineTier.ClusterAninDatabase | drep_modules/d_cluster.py:271-319 | the result is DatabaseTable: the merge with Cdb of all coarse clusters' labelled rows, or the first exception, including the ValueError of a coarse cluster with no alignments |
| FineTier.DatabaseSingleton | drep_modules/d_cluster.py:284-287 | a coarse cluster with one reference contributes the single row `(that reference, "{c}_0")` |
| FineTier.DatabaseLabels | drep_modules/d_cluster.py:308 | every label of the table has the form `"<c>_<fine>"` for a coarse cluster c |
| FineTier.DatabaseError | drep_modules/d_cluster.py:276-308 | the clustering fails exactly when some coarse cluster's fine clustering fails. With `CoarseFineError`, that is a cluster with no alignments or a failing `average_ani` |

## Left out

- External tools and subprocesses are not part of this model:
  - `all_vs_all_MASH`, `run_nucmer_cmd`, `run_nucmer_genomeList`;
  - `thread_nucmer_cmds` and `thread_nucmer_cmds_status`, with their process pool and busy-wait progress printing;
  - `dm.fasta_length` and `dm.make_dir`.
- File system work becomes parameters:
  - `glob` in `process_deltadir` is the sequence of `.delta` files, each with its path and its lines already split into tokens;
  - `org_lengths` is a map;
  - `load_genomes`' `os.path.isfile` assertion is not modelled.
- Logging, `print`, pickle/CSV/JSON output (`d_cluster_wrapper`, `parse_arguments`) and the `Clustering_files/` directory creation are I/O and are left out, as are `cluster_genomes`, `run_anin_on_clusters`, `cluster_mash_database` and `test_clustering`, which only chain the modelled steps with the tools above.
- `cluster_hierarchical` (scipy `squareform`, `linkage`, `fcluster`) and the pandas `pivot` before it are foreign calls. They are the parameter `hier` of type `Hierarchical`, fed the filtered alignments and their distances. `FineTier.DistancesSymmetric` states what they are given: a zero diagonal and symmetric distances.
- The `'simple'` branch of `cluster_anin_database` (line 269) passes the undefined name `ANIn` and a fixed `cov_thresh=0.5`, so it always raises NameError; `FineTier.ClusterAninSimple` is modelled on `cluster_anin_simple`'s own parameters. Other method names fall through to `pd.merge` of an undefined table and are left out.
- `gen_nomani_cdb` is an `assert False` stub and is not modelled.
- pandas mechanics are modelled by their record-level effect:
  - `pd.merge` is an inner join on `genome`, in the order of the left table and then of the right;
  - `Series.unique` keeps first appearances;
  - `apply` maps over the rows in order.
- Graphs.ClusterGraph: networkx's `connected_component_subgraphs` order is library-defined. The model labels components in the order a breadth-first search from the nodes, in insertion order, meets them, and its contract states the partition and the label range, not which component gets which number.
- FineTier.ClusterAninSimple: for the same reason its result, like that of FineTier.SimpleCluster, is stated through a ghost witness `fines`, meaning some labelling of each coarse cluster's graph by components. It is therefore fixed only up to which component gets which fine number.
- Floating point: the ratios and `np.mean` are exact `real` arithmetic; the similarity, coverage and ani values are `real`.
- Text.ParseInt: Python's `int()` also accepts surrounding whitespace, underscores between digits and non-ASCII digits; tokens here are already stripped, and only ASCII digits with an optional sign are accepted.
- FineTier.AverageAniSymmetric requires one row per ordered pair (`OnePerPair`), as `process_deltadir` produces for distinct file names; with duplicate rows `average_ani` takes the first reverse row.
- Text.SplitVsAmbiguous: genome names containing "_vs_", or a first name ending in "_vs", do not survive the file-name round trip; `Nucmer.DeltaNameRoundTrip` excludes them in its requires.
- The `sim` edge attribute `make_graph` stores is not modelled; nothing in the core reads it.
