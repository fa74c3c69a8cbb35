/**
 * The fine (ANIn) tier of the clustering: the coverage filter and the
 * symmetrised identity that feed the hierarchical clustering, the
 * "<coarse>_<fine>" labels, the tables that compose them, and the small
 * table constructors gen_cdb_from_fclust and gen_nomash_cdb.
 */
module FineTier {
  import opened Wrappers
  import opened Text
  import opened Tables
  import opened Graphs

  // ---------------------------------------------------------------------
  // The coverage filter of cluster_anin_database

  /** One row after the filter: ani is 0 when the alignment coverage is at or below the threshold. */
  function CoverageFilteredRow(row: AlignmentRow, covThresh: real): (r: AlignmentRow)
    ensures r.ani == (if row.alignmentCoverage <= covThresh then 0.0 else row.ani)
    ensures r.(ani := row.ani) == row
  {
    if row.alignmentCoverage <= covThresh then row.(ani := 0.0) else row
  }

  /** The whole table after the filter. */
  function CoverageFiltered(rows: seq<AlignmentRow>, covThresh: real): (r: seq<AlignmentRow>)
    ensures |r| == |rows|
  {
    seq(|rows|, i requires 0 <= i < |rows| => CoverageFilteredRow(rows[i], covThresh))
  }

  /** The filter as the loop-free assignment d.loc[mask, 'ani'] = 0, done in place one row at a time. */
  method FilterCoverage(d: array<AlignmentRow>, covThresh: real)
    modifies d
    ensures d[..] == CoverageFiltered(old(d[..]), covThresh)
  {
    var i := 0;
    while i < d.Length
      invariant 0 <= i <= d.Length
      invariant forall k :: 0 <= k < i ==> d[k] == CoverageFilteredRow(old(d[k]), covThresh)
      invariant forall k :: i <= k < d.Length ==> d[k] == old(d[k])
    {
      if d[i].alignmentCoverage <= covThresh {
        d[i] := d[i].(ani := 0.0);
      }
      i := i + 1;
    }
  }

  /** Applying the filter a second time changes nothing. */
  lemma CoverageFilterIdempotent(rows: seq<AlignmentRow>, covThresh: real)
    ensures CoverageFiltered(CoverageFiltered(rows, covThresh), covThresh) == CoverageFiltered(rows, covThresh)
  {
    var once := CoverageFiltered(rows, covThresh);
    forall i | 0 <= i < |rows|
      ensures CoverageFiltered(once, covThresh)[i] == once[i]
    {
      assert once[i].alignmentCoverage == rows[i].alignmentCoverage;
    }
  }

  /**
   * After the filter, a row keeps a non-zero ani only when its coverage is above the threshold, and
   * then it keeps the ani it had; every other field of every row is as before.
   */
  lemma CoverageFilterKeeps(rows: seq<AlignmentRow>, covThresh: real, i: nat)
    requires i < |rows|
    ensures var r := CoverageFiltered(rows, covThresh)[i];
            && (r.ani != 0.0 ==> rows[i].alignmentCoverage > covThresh && r.ani == rows[i].ani)
            && (rows[i].alignmentCoverage > covThresh ==> r == rows[i])
            && r.(ani := rows[i].ani) == rows[i]
  {
  }

  // ---------------------------------------------------------------------
  // average_ani and the distances it feeds

  /** The index of the first row with this reference and querry (a boolean mask followed by .tolist()[0]). */
  function FindPair(db: seq<AlignmentRow>, reference: Genome, querry: Genome): (r: Option<nat>)
    ensures r.Some? ==> r.value < |db| && db[r.value].reference == reference && db[r.value].querry == querry
    ensures r.Some? ==> forall k :: 0 <= k < r.value ==> !(db[k].reference == reference && db[k].querry == querry)
    ensures r.None? ==> forall k :: 0 <= k < |db| ==> !(db[k].reference == reference && db[k].querry == querry)
    decreases |db|
  {
    if |db| == 0 then None
    else if db[0].reference == reference && db[0].querry == querry then Some(0)
    else match FindPair(db[1..], reference, querry)
      case None => None
      case Some(j) => Some(j + 1)
  }

  /**
   * average_ani: 1 for a genome against itself, otherwise the mean of the row's ani and that of the
   * first row of the reverse comparison; with no reverse row the lookup raises IndexError.
   */
  function AverageAni(row: AlignmentRow, db: seq<AlignmentRow>): (r: Result<real, string>)
    ensures row.querry == row.reference ==> r == Ok(1.0)
    ensures row.querry != row.reference ==>
              (r.Ok? <==> exists k :: 0 <= k < |db| && db[k].reference == row.querry && db[k].querry == row.reference)
    ensures r.Ok? && row.querry != row.reference ==>
              exists k :: 0 <= k < |db| && db[k].reference == row.querry && db[k].querry == row.reference
                          && r.value == (row.ani + db[k].ani) / 2.0
  {
    if row.querry == row.reference then Ok(1.0)
    else match FindPair(db, row.querry, row.reference)
      case None => Err("IndexError: no row for the reverse comparison")
      case Some(j) => Ok((row.ani + db[j].ani) / 2.0)
  }

  /** Each ordered (querry, reference) pair has at most one row, as when the table has one row per .delta file. */
  predicate OnePerPair(db: seq<AlignmentRow>) {
    forall i, j :: 0 <= i < j < |db| ==> db[i].querry != db[j].querry || db[i].reference != db[j].reference
  }

  /** With one row per pair, average_ani gives a comparison and its reverse the same value. */
  lemma AverageAniSymmetric(db: seq<AlignmentRow>, i: nat, j: nat)
    requires OnePerPair(db) && i < |db| && j < |db|
    requires db[j].reference == db[i].querry && db[j].querry == db[i].reference
    ensures AverageAni(db[i], db) == AverageAni(db[j], db)
    ensures AverageAni(db[i], db).Ok?
  {
    if db[i].querry != db[i].reference {
      var fi := FindPair(db, db[i].querry, db[i].reference);
      var fj := FindPair(db, db[j].querry, db[j].reference);
      assert fi.Some? && fj.Some?;
      SamePair(db, fi.value, j);
      SamePair(db, fj.value, i);
    }
  }

  lemma SamePair(db: seq<AlignmentRow>, k: nat, j: nat)
    requires OnePerPair(db) && k < |db| && j < |db|
    requires db[k].querry == db[j].querry && db[k].reference == db[j].reference
    ensures k == j
  {
  }

  /** d.apply(average_ani, axis=1): one value per row, or the first row's IndexError. */
  function AvAni(d: seq<AlignmentRow>): (r: Result<seq<real>, string>)
    ensures r.Ok? ==> |r.value| == |d| && forall i :: 0 <= i < |d| ==> AverageAni(d[i], d) == Ok(r.value[i])
    ensures r.Ok? <==> forall i :: 0 <= i < |d| ==> AverageAni(d[i], d).Ok?
  {
    var f := (row: AlignmentRow) => AverageAni(row, d);
    MapRowsSpec(d, f);
    MapRows(d, f)
  }

  /** d['dist'] = 1 - d['av_ani'] */
  function Distances(av: seq<real>): (r: seq<real>)
    ensures |r| == |av| && forall i :: 0 <= i < |av| ==> r[i] + av[i] == 1.0
  {
    seq(|av|, i requires 0 <= i < |av| => 1.0 - av[i])
  }

  /**
   * The distances handed to the hierarchical clustering are those of a square, symmetric,
   * zero-diagonal matrix: 0 for a genome against itself, and equal for a comparison and its reverse.
   */
  lemma DistancesSymmetric(d: seq<AlignmentRow>, i: nat, j: nat)
    requires OnePerPair(d) && AvAni(d).Ok? && i < |d| && j < |d|
    ensures d[i].querry == d[i].reference ==> Distances(AvAni(d).value)[i] == 0.0
    ensures d[j].reference == d[i].querry && d[j].querry == d[i].reference ==>
              Distances(AvAni(d).value)[i] == Distances(AvAni(d).value)[j]
  {
    if d[j].reference == d[i].querry && d[j].querry == d[i].reference {
      AverageAniSymmetric(d, i, j);
    }
  }

  // ---------------------------------------------------------------------
  // "<coarse>_<fine>" labels

  /** "{0}_{1}".format(cluster, clust) */
  function FineLabel(coarse: int, fine: int): string {
    IntToString(coarse) + "_" + IntToString(fine)
  }

  /** A singleton coarse cluster's label "{0}_0".format(cluster) is the fine label 0. */
  lemma SingletonLabel(coarse: int)
    ensures FineLabel(coarse, 0) == IntToString(coarse) + "_0"
  {
    assert IntToString(0) == "0";
  }

  /** With no '_' after the join, the last '_' of the label is the joining one. */
  lemma UnderscoreJoinInjective(a1: string, b1: string, a2: string, b2: string)
    requires '_' !in b1 && '_' !in b2
    requires a1 + "_" + b1 == a2 + "_" + b2
    ensures a1 == a2 && b1 == b2
  {
    var s := a1 + "_" + b1;
    assert s[|a1| + 1..] == b1 && s[|a1|] == '_';
    LastIndexOfIs(s, '_', |a1|);
    var t := a2 + "_" + b2;
    assert t[|a2| + 1..] == b2 && t[|a2|] == '_';
    LastIndexOfIs(t, '_', |a2|);
    assert a1 == s[..|a1|] && a2 == t[..|a2|];
  }

  /** Labels of different (coarse, fine) pairs differ: the label names its pair. */
  lemma FineLabelInjective(c1: int, f1: int, c2: int, f2: int)
    ensures FineLabel(c1, f1) == FineLabel(c2, f2) <==> c1 == c2 && f1 == f2
  {
    if FineLabel(c1, f1) == FineLabel(c2, f2) {
      IntToStringClean(f1);
      IntToStringClean(f2);
      UnderscoreJoinInjective(IntToString(c1), IntToString(f1), IntToString(c2), IntToString(f2));
      IntToStringInjective(c1, c2);
      IntToStringInjective(f1, f2);
    }
  }

  // ---------------------------------------------------------------------
  // gen_cdb_from_fclust and gen_nomash_cdb

  /**
   * gen_cdb_from_fclust: the i-th flat cluster label paired with the i-th name; running out of names
   * raises IndexError.
   */
  method GenCdbFromFclust(fclust: seq<nat>, names: seq<Genome>) returns (r: Result<seq<ClusterRow>, string>)
    ensures r.Ok? <==> |fclust| <= |names|
    ensures r.Ok? ==> |r.value| == |fclust| && forall i :: 0 <= i < |fclust| ==> r.value[i] == ClusterRow(fclust[i], names[i])
  {
    var table: seq<ClusterRow> := [];
    var i := 0;
    while i < |fclust|
      invariant 0 <= i <= |fclust| && i <= |names|
      invariant |table| == i && forall k :: 0 <= k < i ==> table[k] == ClusterRow(fclust[k], names[k])
    {
      if i >= |names| {
        return Err("IndexError: list index out of range");
      }
      table := table + [ClusterRow(fclust[i], names[i])];
      i := i + 1;
    }
    return Ok(table);
  }

  /** gen_nomash_cdb: a copy of Bdb in which every genome is in MASH cluster 0. */
  function NomashCdb(bdb: seq<GenomeRecord>): (r: seq<CdbRow>)
    ensures |r| == |bdb|
    ensures forall i :: 0 <= i < |bdb| ==> r[i].mashCluster == 0
    ensures forall i :: 0 <= i < |bdb| ==> r[i].location.Some? && GenomeRecord(r[i].genome, r[i].location.value) == bdb[i]
  {
    seq(|bdb|, i requires 0 <= i < |bdb| => CdbRow(bdb[i].genome, 0, Some(bdb[i].location)))
  }

  /** Without MASH the fine tier visits a single coarse cluster, 0, holding every genome. */
  lemma {:induction false} NomashOneCluster(bdb: seq<GenomeRecord>)
    requires |bdb| > 0
    ensures Unique(Column(NomashCdb(bdb), MashCluster)) == [0]
  {
    var col := Column(NomashCdb(bdb), MashCluster);
    OneValueUnique(col, 0);
  }

  lemma {:induction false} OneValueUnique(s: seq<nat>, v: nat)
    requires |s| > 0 && forall i :: 0 <= i < |s| ==> s[i] == v
    ensures Unique(s) == [v]
    decreases |s|
  {
    if |s| > 1 {
      OneValueUnique(s[..|s| - 1], v);
    }
  }

  // ---------------------------------------------------------------------
  // The rows appended for one coarse cluster

  function ClusterOf(row: ClusterRow): nat { row.cluster }
  function ClusterGenome(row: ClusterRow): Genome { row.genome }
  function InCluster(clust: nat): ClusterRow -> bool { (row: ClusterRow) => row.cluster == clust }

  /** df[df['cluster'] == clust]['genome'].tolist() */
  function MembersOf(df: seq<ClusterRow>, clust: nat): seq<Genome> {
    Column(Filter(df, InCluster(clust)), ClusterGenome)
  }

  lemma MembersOfSpec(df: seq<ClusterRow>, clust: nat, g: Genome)
    ensures g in MembersOf(df, clust) <==> exists i :: 0 <= i < |df| && df[i].cluster == clust && df[i].genome == g
  {
    var rows := Filter(df, InCluster(clust));
    if g in MembersOf(df, clust) {
      var k :| 0 <= k < |rows| && MembersOf(df, clust)[k] == g;
      FilterSpec(df, InCluster(clust), rows[k]);
      var i :| 0 <= i < |df| && df[i] == rows[k];
    }
    if exists i :: 0 <= i < |df| && df[i].cluster == clust && df[i].genome == g {
      var i :| 0 <= i < |df| && df[i].cluster == clust && df[i].genome == g;
      FilterSpec(df, InCluster(clust), df[i]);
      var k :| 0 <= k < |rows| && rows[k] == df[i];
      assert MembersOf(df, clust)[k] == g;
    }
  }

  /** A row of the fine table before its label is rendered: the genome, its coarse cluster and its fine cluster. */
  datatype FineTag = FineTag(genome: Genome, coarse: nat, fine: nat)

  /** The table row of a tag: its label is "<coarse>_<fine>". */
  function RenderTag(t: FineTag): FineRow {
    FineRow(t.genome, FineLabel(t.coarse, t.fine))
  }

  function Render(tags: seq<FineTag>): seq<FineRow> {
    Column(tags, RenderTag)
  }

  /** The rows the innermost loop appends: each genome of fine cluster `clust`, tagged with both clusters. */
  function LabelTags(coarse: nat, clust: nat, genomes: seq<Genome>): (r: seq<FineTag>)
    ensures |r| == |genomes|
  {
    seq(|genomes|, i requires 0 <= i < |genomes| => FineTag(genomes[i], coarse, clust))
  }

  /** The block of rows of each fine cluster of `clusts`, in that order. */
  function GroupBlocks(coarse: nat, df: seq<ClusterRow>, clusts: seq<nat>): (r: seq<seq<FineTag>>)
    ensures |r| == |clusts|
  {
    seq(|clusts|, i requires 0 <= i < |clusts| => LabelTags(coarse, clusts[i], MembersOf(df, clusts[i])))
  }

  /** The rows appended for one coarse cluster: its fine clusters in the order df['cluster'].unique() gives. */
  function CoarseTags(coarse: nat, df: seq<ClusterRow>): seq<FineTag> {
    Flatten(GroupBlocks(coarse, df, Unique(Column(df, ClusterOf))))
  }

  lemma LabelTagsMember(coarse: nat, clust: nat, genomes: seq<Genome>, x: FineTag)
    ensures x in LabelTags(coarse, clust, genomes) <==> x.genome in genomes && x.coarse == coarse && x.fine == clust
  {
    var r := LabelTags(coarse, clust, genomes);
    if x.genome in genomes && x.coarse == coarse && x.fine == clust {
      var k :| 0 <= k < |genomes| && genomes[k] == x.genome;
      assert r[k] == x;
    }
  }

  /** A coarse cluster contributes exactly its rows of df, each tagged with the coarse cluster and its fine cluster. */
  lemma CoarseTagsMember(coarse: nat, df: seq<ClusterRow>, x: FineTag)
    ensures x in CoarseTags(coarse, df) <==> exists i :: 0 <= i < |df| && x == FineTag(df[i].genome, coarse, df[i].cluster)
  {
    var clusts := Unique(Column(df, ClusterOf));
    var blocks := GroupBlocks(coarse, df, clusts);
    FlattenMember(blocks, x);
    if x in CoarseTags(coarse, df) {
      var b :| 0 <= b < |blocks| && x in blocks[b];
      LabelTagsMember(coarse, clusts[b], MembersOf(df, clusts[b]), x);
      MembersOfSpec(df, clusts[b], x.genome);
      var i :| 0 <= i < |df| && df[i].cluster == clusts[b] && df[i].genome == x.genome;
      assert x == FineTag(df[i].genome, coarse, df[i].cluster);
    }
    if exists i :: 0 <= i < |df| && x == FineTag(df[i].genome, coarse, df[i].cluster) {
      var i :| 0 <= i < |df| && x == FineTag(df[i].genome, coarse, df[i].cluster);
      assert Column(df, ClusterOf)[i] == df[i].cluster;
      var b :| 0 <= b < |clusts| && clusts[b] == df[i].cluster;
      MembersOfSpec(df, clusts[b], x.genome);
      LabelTagsMember(coarse, clusts[b], MembersOf(df, clusts[b]), x);
      assert x in blocks[b];
    }
  }

  /** A singleton coarse cluster's one row, [genome, "<coarse>_0"], is what its one-row fine table gives. */
  lemma SingletonRows(coarse: nat, g: Genome)
    ensures Render(CoarseTags(coarse, [ClusterRow(0, g)])) == [FineRow(g, FineLabel(coarse, 0))]
  {
    var df := [ClusterRow(0, g)];
    assert Column(df, ClusterOf) == [0];
    assert Unique([0]) == [0] by { assert Unique([0][..0]) == []; }
    assert Filter(df, InCluster(0)) == df by { assert df[..0] == []; }
    assert MembersOf(df, 0) == [g];
    var block := LabelTags(coarse, 0, [g]);
    assert block == [FineTag(g, coarse, 0)];
    var blocks := GroupBlocks(coarse, df, [0]);
    assert blocks == [] + [block];
    FlattenSnoc([], block);
    assert CoarseTags(coarse, df) == [FineTag(g, coarse, 0)];
  }

  /** The rows of one fine cluster's genomes, all with the same label. */
  function LabelRows(name: string, genomes: seq<Genome>): (r: seq<FineRow>)
    ensures |r| == |genomes|
  {
    seq(|genomes|, i requires 0 <= i < |genomes| => FineRow(genomes[i], name))
  }

  lemma RenderLabelTags(coarse: nat, clust: nat, genomes: seq<Genome>)
    ensures Render(LabelTags(coarse, clust, genomes)) == LabelRows(FineLabel(coarse, clust), genomes)
  {
  }

  /** The innermost loop: each genome of one fine cluster, appended with the cluster's label. */
  method AppendLabelled(table: seq<FineRow>, name: string, genomes: seq<Genome>) returns (t: seq<FineRow>)
    ensures t == table + LabelRows(name, genomes)
  {
    t := table;
    var j := 0;
    while j < |genomes|
      invariant 0 <= j <= |genomes|
      invariant t == table + LabelRows(name, genomes[..j])
    {
      assert LabelRows(name, genomes[..j + 1]) == LabelRows(name, genomes[..j]) + [FineRow(genomes[j], name)];
      t := t + [FineRow(genomes[j], name)];
      j := j + 1;
    }
    assert genomes[..j] == genomes;
  }

  /** The rows appended for the fine clusters `clusts` of one coarse cluster, one block per fine cluster. */
  function RowBlocks(coarse: nat, df: seq<ClusterRow>, clusts: seq<nat>): (r: seq<seq<FineRow>>)
    ensures |r| == |clusts|
  {
    seq(|clusts|, i requires 0 <= i < |clusts| => LabelRows(FineLabel(coarse, clusts[i]), MembersOf(df, clusts[i])))
  }

  /** The rows appended for one coarse cluster, in the order the loops append them. */
  function CoarseRows(coarse: nat, df: seq<ClusterRow>): seq<FineRow> {
    Flatten(RowBlocks(coarse, df, Unique(Column(df, ClusterOf))))
  }

  /** The appended rows are the tagged rows of the coarse cluster, each with its label rendered. */
  lemma CoarseRowsRender(coarse: nat, df: seq<ClusterRow>)
    ensures CoarseRows(coarse, df) == Render(CoarseTags(coarse, df))
  {
    var clusts := Unique(Column(df, ClusterOf));
    var blocks := GroupBlocks(coarse, df, clusts);
    ColumnFlatten(blocks, RenderTag);
    forall i | 0 <= i < |clusts|
      ensures MapColumns(blocks, RenderTag)[i] == RowBlocks(coarse, df, clusts)[i]
    {
      RenderLabelTags(coarse, clusts[i], MembersOf(df, clusts[i]));
    }
    assert MapColumns(blocks, RenderTag) == RowBlocks(coarse, df, clusts);
  }

  /** The two nested loops over df['cluster'].unique() and each cluster's genomes, appending to the table. */
  method AppendGroups(table: seq<FineRow>, coarse: nat, df: seq<ClusterRow>) returns (t: seq<FineRow>)
    ensures t == table + CoarseRows(coarse, df)
  {
    var clusts := Unique(Column(df, ClusterOf));
    ghost var blocks := RowBlocks(coarse, df, clusts);
    t := table;
    var k := 0;
    while k < |clusts|
      invariant 0 <= k <= |clusts|
      invariant t == table + Flatten(blocks[..k])
    {
      var t' := AppendLabelled(t, FineLabel(coarse, clusts[k]), MembersOf(df, clusts[k]));
      AppendBlock(table, blocks, k, t, t');
      t, k := t', k + 1;
    }
    assert blocks[..k] == blocks;
  }

  // ---------------------------------------------------------------------
  // The whole fine table

  /** The blocks of rows of the coarse clusters `coarse`, each with its own table of fine clusters. */
  function CoarseBlocks(coarse: seq<nat>, fines: seq<seq<ClusterRow>>): (r: seq<seq<FineTag>>)
    requires |fines| == |coarse|
    ensures |r| == |coarse|
  {
    seq(|coarse|, i requires 0 <= i < |coarse| => CoarseTags(coarse[i], fines[i]))
  }

  /** The fine table: the rows of every coarse cluster, one cluster after another. */
  function Compose(coarse: seq<nat>, fines: seq<seq<ClusterRow>>): seq<FineTag>
    requires |fines| == |coarse|
  {
    Flatten(CoarseBlocks(coarse, fines))
  }

  /** A row of the fine table is a row of one coarse cluster's fine table, tagged with both clusters, and every such row is there. */
  lemma ComposeMember(coarse: seq<nat>, fines: seq<seq<ClusterRow>>, x: FineTag)
    requires |fines| == |coarse|
    ensures x in Compose(coarse, fines) <==>
            exists i, k :: 0 <= i < |coarse| && 0 <= k < |fines[i]| && x == FineTag(fines[i][k].genome, coarse[i], fines[i][k].cluster)
  {
    var blocks := CoarseBlocks(coarse, fines);
    FlattenMember(blocks, x);
    if x in Compose(coarse, fines) {
      var i :| 0 <= i < |blocks| && x in blocks[i];
      CoarseTagsMember(coarse[i], fines[i], x);
      var k :| 0 <= k < |fines[i]| && x == FineTag(fines[i][k].genome, coarse[i], fines[i][k].cluster);
    }
    if exists i, k :: 0 <= i < |coarse| && 0 <= k < |fines[i]| && x == FineTag(fines[i][k].genome, coarse[i], fines[i][k].cluster) {
      var i, k :| 0 <= i < |coarse| && 0 <= k < |fines[i]| && x == FineTag(fines[i][k].genome, coarse[i], fines[i][k].cluster);
      CoarseTagsMember(coarse[i], fines[i], x);
      assert x in blocks[i];
    }
  }

  /** Two rows of the fine table share a label exactly when they come from the same coarse cluster and the same fine cluster. */
  lemma ComposeSameLabel(coarse: seq<nat>, fines: seq<seq<ClusterRow>>, i1: nat, k1: nat, i2: nat, k2: nat)
    requires |fines| == |coarse| && Distinct(coarse)
    requires i1 < |coarse| && k1 < |fines[i1]| && i2 < |coarse| && k2 < |fines[i2]|
    ensures FineLabel(coarse[i1], fines[i1][k1].cluster) == FineLabel(coarse[i2], fines[i2][k2].cluster) <==>
            i1 == i2 && fines[i1][k1].cluster == fines[i2][k2].cluster
  {
    FineLabelInjective(coarse[i1], fines[i1][k1].cluster, coarse[i2], fines[i2][k2].cluster);
  }

  /** The rows each coarse cluster appends, one block per coarse cluster, in the order the loops append them. */
  function FineBlocks(coarse: seq<nat>, fines: seq<seq<ClusterRow>>): (r: seq<seq<FineRow>>)
    requires |fines| == |coarse|
    ensures |r| == |coarse|
  {
    seq(|coarse|, i requires 0 <= i < |coarse| => CoarseRows(coarse[i], fines[i]))
  }

  /** The table built by the loop over the coarse clusters, where coarse cluster coarse[i] has the fine clusters fines[i]. */
  function FineTable(coarse: seq<nat>, fines: seq<seq<ClusterRow>>): seq<FineRow>
    requires |fines| == |coarse|
  {
    Flatten(FineBlocks(coarse, fines))
  }

  /** The table the loops build is the fine table of tags, each label rendered. */
  lemma FineTableRender(coarse: seq<nat>, fines: seq<seq<ClusterRow>>)
    requires |fines| == |coarse|
    ensures FineTable(coarse, fines) == Render(Compose(coarse, fines))
  {
    var blocks := CoarseBlocks(coarse, fines);
    ColumnFlatten(blocks, RenderTag);
    forall i | 0 <= i < |coarse|
      ensures MapColumns(blocks, RenderTag)[i] == FineBlocks(coarse, fines)[i]
    {
      CoarseRowsRender(coarse[i], fines[i]);
    }
    assert MapColumns(blocks, RenderTag) == FineBlocks(coarse, fines);
  }

  /** One more turn of the loop over the coarse clusters. */
  lemma FineTableStep(coarse: seq<nat>, fines: seq<seq<ClusterRow>>, k: nat, fine: seq<ClusterRow>,
                      table: seq<FineRow>, t: seq<FineRow>)
    requires k < |coarse| && |fines| == k
    requires table == FineTable(coarse[..k], fines) && t == table + CoarseRows(coarse[k], fine)
    ensures t == FineTable(coarse[..k + 1], fines + [fine])
  {
    var blocks := FineBlocks(coarse[..k], fines);
    assert FineBlocks(coarse[..k + 1], fines + [fine]) == blocks + [CoarseRows(coarse[k], fine)];
    FlattenSnoc(blocks, CoarseRows(coarse[k], fine));
  }

  /**
   * The rows of the fine table are exactly the genomes of the coarse clusters' fine tables, each
   * labelled "<coarse>_<fine>" with its coarse and its fine cluster.
   */
  lemma FineTableMember(coarse: seq<nat>, fines: seq<seq<ClusterRow>>, x: FineRow)
    requires |fines| == |coarse|
    ensures x in FineTable(coarse, fines) <==>
            exists i, k :: 0 <= i < |coarse| && 0 <= k < |fines[i]|
                           && x == FineRow(fines[i][k].genome, FineLabel(coarse[i], fines[i][k].cluster))
  {
    FineTableRender(coarse, fines);
    var tags := Compose(coarse, fines);
    if x in Render(tags) {
      var j :| 0 <= j < |tags| && Render(tags)[j] == x;
      ComposeMember(coarse, fines, tags[j]);
      var i, k :| 0 <= i < |coarse| && 0 <= k < |fines[i]| && tags[j] == FineTag(fines[i][k].genome, coarse[i], fines[i][k].cluster);
      assert x == RenderTag(tags[j]);
    }
    if exists i, k :: 0 <= i < |coarse| && 0 <= k < |fines[i]|
                      && x == FineRow(fines[i][k].genome, FineLabel(coarse[i], fines[i][k].cluster)) {
      var i, k :| 0 <= i < |coarse| && 0 <= k < |fines[i]|
                  && x == FineRow(fines[i][k].genome, FineLabel(coarse[i], fines[i][k].cluster));
      var tag := FineTag(fines[i][k].genome, coarse[i], fines[i][k].cluster);
      ComposeMember(coarse, fines, tag);
      ColumnMember(tags, RenderTag, x);
    }
  }

  // ---------------------------------------------------------------------
  // The coarse clusters of Cdb and their alignments

  /** Cdb['MASH_cluster'].unique() */
  function CoarseClusters(cdb: seq<CdbRow>): seq<nat> {
    Unique(Column(cdb, MashCluster))
  }

  function InMashCluster(c: nat): CdbRow -> bool { (row: CdbRow) => row.mashCluster == c }

  /** Cdb['genome'][Cdb['MASH_cluster'] == c].tolist() */
  function CoarseMembers(cdb: seq<CdbRow>, c: nat): seq<Genome> {
    Column(Filter(cdb, InMashCluster(c)), CdbGenome)
  }

  function ReferenceIn(members: seq<Genome>): AlignmentRow -> bool { (row: AlignmentRow) => row.reference in members }

  /** Ndb[Ndb['reference'].isin(members)]: the alignments whose reference is a genome of coarse cluster c. */
  function CoarseAlignments(cdb: seq<CdbRow>, ndb: seq<AlignmentRow>, c: nat): seq<AlignmentRow> {
    Filter(ndb, ReferenceIn(CoarseMembers(cdb, c)))
  }

  /** An alignment is kept for coarse cluster c exactly when its reference has a Cdb row in cluster c. */
  lemma CoarseAlignmentsSpec(cdb: seq<CdbRow>, ndb: seq<AlignmentRow>, c: nat, row: AlignmentRow)
    ensures row in CoarseAlignments(cdb, ndb, c) <==>
            row in ndb && exists j :: 0 <= j < |cdb| && cdb[j].mashCluster == c && cdb[j].genome == row.reference
  {
    var members := CoarseMembers(cdb, c);
    var rows := Filter(cdb, InMashCluster(c));
    FilterSpec(ndb, ReferenceIn(members), row);
    if row.reference in members {
      var k :| 0 <= k < |rows| && members[k] == row.reference;
      FilterSpec(cdb, InMashCluster(c), rows[k]);
      var j :| 0 <= j < |cdb| && cdb[j] == rows[k];
    }
    if exists j :: 0 <= j < |cdb| && cdb[j].mashCluster == c && cdb[j].genome == row.reference {
      var j :| 0 <= j < |cdb| && cdb[j].mashCluster == c && cdb[j].genome == row.reference;
      FilterSpec(cdb, InMashCluster(c), cdb[j]);
      var k :| 0 <= k < |rows| && rows[k] == cdb[j];
      assert members[k] == row.reference;
    }
  }

  // ---------------------------------------------------------------------
  // pd.merge(Gdb, Cdb) on the shared column 'genome'

  /** A row of the merged table: the genome and label of Gdb with the MASH cluster and location of Cdb. */
  datatype ClusteredRow = ClusteredRow(genome: Genome, aninCluster: string, mashCluster: nat, location: Option<string>)

  function SameGenome(g: Genome): CdbRow -> bool { (row: CdbRow) => row.genome == g }

  function JoinWith(row: FineRow): CdbRow -> ClusteredRow {
    (c: CdbRow) => ClusteredRow(row.genome, row.aninCluster, c.mashCluster, c.location)
  }

  /** For each Gdb row in order, its join with every Cdb row of the same genome in Cdb's order. */
  function MergeBlocks(gdb: seq<FineRow>, cdb: seq<CdbRow>): (r: seq<seq<ClusteredRow>>)
    ensures |r| == |gdb|
  {
    seq(|gdb|, i requires 0 <= i < |gdb| => Column(Filter(cdb, SameGenome(gdb[i].genome)), JoinWith(gdb[i])))
  }

  /** The inner join, keeping the order of the left table. */
  function MergeOnGenome(gdb: seq<FineRow>, cdb: seq<CdbRow>): seq<ClusteredRow> {
    Flatten(MergeBlocks(gdb, cdb))
  }

  /** The block of one Gdb row: its join with each Cdb row of the same genome. */
  lemma MergeBlockMember(row: FineRow, cdb: seq<CdbRow>, x: ClusteredRow)
    ensures x in Column(Filter(cdb, SameGenome(row.genome)), JoinWith(row)) <==>
            exists j :: 0 <= j < |cdb| && cdb[j].genome == row.genome
                        && x == ClusteredRow(row.genome, row.aninCluster, cdb[j].mashCluster, cdb[j].location)
  {
    var rows := Filter(cdb, SameGenome(row.genome));
    ColumnMember(rows, JoinWith(row), x);
    if x in Column(rows, JoinWith(row)) {
      var y :| y in rows && x == JoinWith(row)(y);
      FilterSpec(cdb, SameGenome(row.genome), y);
      var j :| 0 <= j < |cdb| && cdb[j] == y;
    }
    if exists j :: 0 <= j < |cdb| && cdb[j].genome == row.genome
                   && x == ClusteredRow(row.genome, row.aninCluster, cdb[j].mashCluster, cdb[j].location) {
      var j :| 0 <= j < |cdb| && cdb[j].genome == row.genome
               && x == ClusteredRow(row.genome, row.aninCluster, cdb[j].mashCluster, cdb[j].location);
      FilterSpec(cdb, SameGenome(row.genome), cdb[j]);
      assert x == JoinWith(row)(cdb[j]);
    }
  }

  /** A merged row joins a Gdb row and a Cdb row of the same genome, and every such pair gives one. */
  lemma MergeMember(gdb: seq<FineRow>, cdb: seq<CdbRow>, x: ClusteredRow)
    ensures x in MergeOnGenome(gdb, cdb) <==>
            exists i, j :: 0 <= i < |gdb| && 0 <= j < |cdb| && gdb[i].genome == cdb[j].genome
                           && x == ClusteredRow(gdb[i].genome, gdb[i].aninCluster, cdb[j].mashCluster, cdb[j].location)
  {
    var blocks := MergeBlocks(gdb, cdb);
    FlattenMember(blocks, x);
    if x in MergeOnGenome(gdb, cdb) {
      var i :| 0 <= i < |blocks| && x in blocks[i];
      MergeBlockMember(gdb[i], cdb, x);
    }
    if exists i, j :: 0 <= i < |gdb| && 0 <= j < |cdb| && gdb[i].genome == cdb[j].genome
                      && x == ClusteredRow(gdb[i].genome, gdb[i].aninCluster, cdb[j].mashCluster, cdb[j].location) {
      var i, j :| 0 <= i < |gdb| && 0 <= j < |cdb| && gdb[i].genome == cdb[j].genome
                  && x == ClusteredRow(gdb[i].genome, gdb[i].aninCluster, cdb[j].mashCluster, cdb[j].location);
      MergeBlockMember(gdb[i], cdb, x);
      assert x in blocks[i];
    }
  }

  // ---------------------------------------------------------------------
  // cluster_anin_simple

  /** The rows cluster_graph returns for a graph: every node once, labelled by connected component 0, 1, 2, ... */
  ghost predicate ComponentLabelling(adj: Adjacency, rows: seq<ClusterRow>) {
    && (forall v :: v in adj <==> exists i :: 0 <= i < |rows| && rows[i].genome == v)
    && DistinctGenomes(rows)
    && LabelSteps(rows)
    && Partitioned(adj, rows)
  }

  /** The ANIn graph of the alignments of coarse cluster c. */
  function CoarseGraph(cdb: seq<CdbRow>, ndb: seq<AlignmentRow>, c: nat, anin: real, covThresh: real): Adjacency {
    AninGraph(CoarseAlignments(cdb, ndb, c), covThresh, anin)
  }

  /** fines[i] is a cluster_graph labelling of the ANIn graph of the i-th coarse cluster, for the first |fines| of them. */
  ghost predicate LabelledPrefix(cdb: seq<CdbRow>, ndb: seq<AlignmentRow>, anin: real, covThresh: real, fines: seq<seq<ClusterRow>>) {
    var coarse := CoarseClusters(cdb);
    && |fines| <= |coarse|
    && forall i :: 0 <= i < |fines| ==> ComponentLabelling(CoarseGraph(cdb, ndb, coarse[i], anin, covThresh), fines[i])
  }

  /** The same for every coarse cluster. */
  ghost predicate SimpleFines(cdb: seq<CdbRow>, ndb: seq<AlignmentRow>, anin: real, covThresh: real, fines: seq<seq<ClusterRow>>) {
    LabelledPrefix(cdb, ndb, anin, covThresh, fines) && |fines| == |CoarseClusters(cdb)|
  }

  lemma LabelledPrefixSnoc(cdb: seq<CdbRow>, ndb: seq<AlignmentRow>, anin: real, covThresh: real,
                           fines: seq<seq<ClusterRow>>, df: seq<ClusterRow>)
    requires LabelledPrefix(cdb, ndb, anin, covThresh, fines) && |fines| < |CoarseClusters(cdb)|
    requires ComponentLabelling(CoarseGraph(cdb, ndb, CoarseClusters(cdb)[|fines|], anin, covThresh), df)
    ensures LabelledPrefix(cdb, ndb, anin, covThresh, fines + [df])
  {
    var fines' := fines + [df];
    assert forall i :: 0 <= i < |fines| ==> fines'[i] == fines[i];
  }

  /** The body of the loop of cluster_anin_simple for coarse cluster c, appending its rows to `table`. */
  method SimpleCluster(table: seq<FineRow>, cdb: seq<CdbRow>, ndb: seq<AlignmentRow>, anin: real, covThresh: real, c: nat)
    returns (t: seq<FineRow>, ghost df: seq<ClusterRow>)
    ensures ComponentLabelling(CoarseGraph(cdb, ndb, c, anin, covThresh), df)
    ensures t == table + CoarseRows(c, df)
  {
    var d := CoarseAlignments(cdb, ndb, c);
    var g := MakeGraphAnin(d, covThresh, anin);
    var rows := ClusterGraph(g);
    assert ComponentLabelling(g.adj, rows);
    t := AppendGroups(table, c, rows);
    df := rows;
  }

  /**
   * cluster_anin_simple: for each coarse cluster in order, the components of its ANIn graph, each genome
   * appended with the label "<coarse>_<fine>"; the table is then merged with Cdb on the genome.
   */
  method ClusterAninSimple(cdb: seq<CdbRow>, ndb: seq<AlignmentRow>, anin: real, covThresh: real)
    returns (wdb: seq<ClusteredRow>, ghost fines: seq<seq<ClusterRow>>)
    ensures SimpleFines(cdb, ndb, anin, covThresh, fines)
    ensures wdb == MergeOnGenome(FineTable(CoarseClusters(cdb), fines), cdb)
  {
    var coarse := CoarseClusters(cdb);
    var table: seq<FineRow> := [];
    fines := [];
    var k := 0;
    while k < |coarse|
      invariant 0 <= k <= |coarse| && |fines| == k
      invariant LabelledPrefix(cdb, ndb, anin, covThresh, fines)
      invariant table == FineTable(coarse[..k], fines)
    {
      var t, df := SimpleCluster(table, cdb, ndb, anin, covThresh, coarse[k]);
      FineTableStep(coarse, fines, k, df, table, t);
      LabelledPrefixSnoc(cdb, ndb, anin, covThresh, fines, df);
      table, fines, k := t, fines + [df], k + 1;
    }
    assert coarse[..k] == coarse;
    wdb := MergeOnGenome(table, cdb);
  }

  /**
   * Two rows of cluster_anin_simple's table share a label exactly when they belong to the same coarse
   * cluster and are connected in that cluster's ANIn graph.
   */
  lemma SimpleSameLabel(cdb: seq<CdbRow>, ndb: seq<AlignmentRow>, anin: real, covThresh: real,
                        fines: seq<seq<ClusterRow>>, i1: nat, k1: nat, i2: nat, k2: nat)
    requires SimpleFines(cdb, ndb, anin, covThresh, fines)
    requires i1 < |fines| && k1 < |fines[i1]| && i2 < |fines| && k2 < |fines[i2]|
    ensures var coarse := CoarseClusters(cdb);
            FineLabel(coarse[i1], fines[i1][k1].cluster) == FineLabel(coarse[i2], fines[i2][k2].cluster) <==>
            i1 == i2 && Connected(CoarseGraph(cdb, ndb, coarse[i1], anin, covThresh), fines[i1][k1].genome, fines[i2][k2].genome)
  {
    var coarse := CoarseClusters(cdb);
    ComposeSameLabel(coarse, fines, i1, k1, i2, k2);
    if i1 == i2 {
      var adj := CoarseGraph(cdb, ndb, coarse[i1], anin, covThresh);
      assert ComponentLabelling(adj, fines[i1]);
      assert fines[i1][k1].cluster == fines[i1][k2].cluster <==> Connected(adj, fines[i1][k1].genome, fines[i1][k2].genome);
    }
  }

  /** Every node of a coarse cluster's ANIn graph has a row in cluster_anin_simple's table, labelled with that coarse cluster. */
  lemma SimpleCovers(cdb: seq<CdbRow>, ndb: seq<AlignmentRow>, anin: real, covThresh: real,
                     fines: seq<seq<ClusterRow>>, i: nat, v: Genome)
    requires SimpleFines(cdb, ndb, anin, covThresh, fines)
    requires i < |fines| && v in CoarseGraph(cdb, ndb, CoarseClusters(cdb)[i], anin, covThresh)
    ensures exists f: nat :: FineRow(v, FineLabel(CoarseClusters(cdb)[i], f)) in FineTable(CoarseClusters(cdb), fines)
  {
    var coarse := CoarseClusters(cdb);
    assert ComponentLabelling(CoarseGraph(cdb, ndb, coarse[i], anin, covThresh), fines[i]);
    var k :| 0 <= k < |fines[i]| && fines[i][k].genome == v;
    var x := FineRow(v, FineLabel(coarse[i], fines[i][k].cluster));
    FineTableMember(coarse, fines, x);
  }

  // ---------------------------------------------------------------------
  // cluster_anin_database with method='hierarchical'

  /**
   * The pivot of the distances into a matrix, linkage and fcluster (cluster_hierarchical): given the
   * filtered alignments and their distances, a fine cluster for each genome.
   */
  type Hierarchical = (seq<AlignmentRow>, seq<real>) -> seq<ClusterRow>

  /**
   * The exception raised for a coarse cluster none of whose genomes is the reference of an alignment:
   * assigning the empty result of d.apply to d['av_ani'] fails, and so would linkage on an empty matrix.
   */
  const NoAlignments := "ValueError: no alignments in the coarse cluster"

  /** The fine clusters of coarse cluster c, or the exception that aborts the clustering. */
  function CoarseFine(cdb: seq<CdbRow>, ndb: seq<AlignmentRow>, covThresh: real, hier: Hierarchical, c: nat)
    : Result<seq<ClusterRow>, string>
  {
    var d := CoverageFiltered(CoarseAlignments(cdb, ndb, c), covThresh);
    var refs := Unique(Column(d, Reference));
    if |refs| == 1 then Ok([ClusterRow(0, refs[0])])
    else if |refs| == 0 then Err(NoAlignments)
    else
      match AvAni(d)
      case Err(e) => Err(e)
      case Ok(av) => Ok(hier(d, Distances(av)))
  }

  function FineStep(cdb: seq<CdbRow>, ndb: seq<AlignmentRow>, covThresh: real, hier: Hierarchical)
    : nat -> Result<seq<ClusterRow>, string>
  {
    (c: nat) => CoarseFine(cdb, ndb, covThresh, hier, c)
  }

  /** The fine clusters of every coarse cluster in order, or the first exception. */
  function DatabaseFines(cdb: seq<CdbRow>, ndb: seq<AlignmentRow>, covThresh: real, hier: Hierarchical)
    : (r: Result<seq<seq<ClusterRow>>, string>)
    ensures r.Ok? ==> |r.value| == |CoarseClusters(cdb)|
  {
    MapRowsSpec(CoarseClusters(cdb), FineStep(cdb, ndb, covThresh, hier));
    MapRows(CoarseClusters(cdb), FineStep(cdb, ndb, covThresh, hier))
  }

  /** The merged table cluster_anin_database returns, or the exception it raises. */
  function DatabaseTable(cdb: seq<CdbRow>, ndb: seq<AlignmentRow>, covThresh: real, hier: Hierarchical)
    : Result<seq<ClusteredRow>, string>
  {
    match DatabaseFines(cdb, ndb, covThresh, hier)
    case Err(e) => Err(e)
    case Ok(fines) => Ok(MergeOnGenome(FineTable(CoarseClusters(cdb), fines), cdb))
  }

  /** The body of the loop of cluster_anin_database for coarse cluster c, appending its rows to `table`. */
  method DatabaseCluster(table: seq<FineRow>, cdb: seq<CdbRow>, ndb: seq<AlignmentRow>, covThresh: real,
                         hier: Hierarchical, c: nat)
    returns (r: Result<seq<FineRow>, string>, ghost fine: seq<ClusterRow>)
    ensures CoarseFine(cdb, ndb, covThresh, hier, c).Err? <==> r.Err?
    ensures r.Err? ==> CoarseFine(cdb, ndb, covThresh, hier, c) == Err(r.error)
    ensures r.Ok? ==> CoarseFine(cdb, ndb, covThresh, hier, c) == Ok(fine) && r.value == table + CoarseRows(c, fine)
  {
    var d0 := CoarseAlignments(cdb, ndb, c);
    var arr := new AlignmentRow[|d0|](i requires 0 <= i < |d0| => d0[i]);
    assert arr[..] == d0;
    FilterCoverage(arr, covThresh);
    var d := arr[..];
    var refs := Unique(Column(d, Reference));
    if |refs| == 1 {
      fine := [ClusterRow(0, refs[0])];
      SingletonRows(c, refs[0]);
      CoarseRowsRender(c, fine);
      r := Ok(table + [FineRow(refs[0], FineLabel(c, 0))]);
    } else if |refs| == 0 {
      fine := [];
      r := Err(NoAlignments);
    } else {
      var av := AvAni(d);
      if av.Err? {
        fine := [];
        r := Err(av.error);
      } else {
        var gdb := hier(d, Distances(av.value));
        var t := AppendGroups(table, c, gdb);
        r, fine := Ok(t), gdb;
      }
    }
  }

  /**
   * cluster_anin_database with method='hierarchical': for each coarse cluster in order, zero the ani of
   * alignments at or below the coverage threshold, give a one-reference cluster the label "<c>_0", and
   * otherwise cluster the symmetrised distances and label each genome "<c>_<fine>"; then merge with Cdb.
   */
  method ClusterAninDatabase(cdb: seq<CdbRow>, ndb: seq<AlignmentRow>, covThresh: real, hier: Hierarchical)
    returns (r: Result<seq<ClusteredRow>, string>)
    ensures r == DatabaseTable(cdb, ndb, covThresh, hier)
  {
    var coarse := CoarseClusters(cdb);
    ghost var step := FineStep(cdb, ndb, covThresh, hier);
    var table: seq<FineRow> := [];
    ghost var fines: seq<seq<ClusterRow>> := [];
    var k := 0;
    while k < |coarse|
      invariant 0 <= k <= |coarse| && |fines| == k
      invariant MapRows(coarse[..k], step) == Ok(fines)
      invariant table == FineTable(coarse[..k], fines)
    {
      var next, fine := DatabaseCluster(table, cdb, ndb, covThresh, hier, coarse[k]);
      MapRowsStep(coarse, step, k, fines, CoarseFine(cdb, ndb, covThresh, hier, coarse[k]));
      if next.Err? {
        return Err(next.error);
      }
      FineTableStep(coarse, fines, k, fine, table, next.value);
      table, fines, k := next.value, fines + [fine], k + 1;
    }
    assert coarse[..k] == coarse;
    r := Ok(MergeOnGenome(table, cdb));
  }

  /** A coarse cluster whose filtered alignments have one reference g contributes the one row [g, "<c>_0"]. */
  lemma DatabaseSingleton(cdb: seq<CdbRow>, ndb: seq<AlignmentRow>, covThresh: real, hier: Hierarchical, i: nat)
    requires DatabaseFines(cdb, ndb, covThresh, hier).Ok? && i < |CoarseClusters(cdb)|
    requires |Unique(Column(CoverageFiltered(CoarseAlignments(cdb, ndb, CoarseClusters(cdb)[i]), covThresh), Reference))| == 1
    ensures var c := CoarseClusters(cdb)[i];
            var g := Unique(Column(CoverageFiltered(CoarseAlignments(cdb, ndb, c), covThresh), Reference))[0];
            var fines := DatabaseFines(cdb, ndb, covThresh, hier).value;
            FineBlocks(CoarseClusters(cdb), fines)[i] == [FineRow(g, IntToString(c) + "_0")]
  {
    var coarse := CoarseClusters(cdb);
    var c := coarse[i];
    var g := Unique(Column(CoverageFiltered(CoarseAlignments(cdb, ndb, c), covThresh), Reference))[0];
    var fines := DatabaseFines(cdb, ndb, covThresh, hier).value;
    MapRowsSpec(coarse, FineStep(cdb, ndb, covThresh, hier));
    assert fines[i] == [ClusterRow(0, g)];
    SingletonRows(c, g);
    CoarseRowsRender(c, fines[i]);
    SingletonLabel(c);
  }

  /** Every row of cluster_anin_database's table is labelled "<c>_<fine>" for its coarse cluster c. */
  lemma DatabaseLabels(cdb: seq<CdbRow>, ndb: seq<AlignmentRow>, covThresh: real, hier: Hierarchical, x: FineRow)
    requires DatabaseFines(cdb, ndb, covThresh, hier).Ok?
    requires x in FineTable(CoarseClusters(cdb), DatabaseFines(cdb, ndb, covThresh, hier).value)
    ensures exists i, f: nat :: 0 <= i < |CoarseClusters(cdb)| && x.aninCluster == FineLabel(CoarseClusters(cdb)[i], f)
  {
    var coarse, fines := CoarseClusters(cdb), DatabaseFines(cdb, ndb, covThresh, hier).value;
    FineTableMember(coarse, fines, x);
    var i, k :| 0 <= i < |coarse| && 0 <= k < |fines[i]|
                && x == FineRow(fines[i][k].genome, FineLabel(coarse[i], fines[i][k].cluster));
  }

  /**
   * A coarse cluster fails exactly when it has no alignments (a ValueError) or, having two or more
   * references, average_ani fails on one of its rows (an IndexError).
   */
  lemma CoarseFineError(cdb: seq<CdbRow>, ndb: seq<AlignmentRow>, covThresh: real, hier: Hierarchical, c: nat)
    ensures var d := CoverageFiltered(CoarseAlignments(cdb, ndb, c), covThresh);
            CoarseFine(cdb, ndb, covThresh, hier, c).Err? <==>
            (|d| == 0 || (|Unique(Column(d, Reference))| != 1 && AvAni(d).Err?))
    ensures CoarseAlignments(cdb, ndb, c) == [] ==> CoarseFine(cdb, ndb, covThresh, hier, c) == Err(NoAlignments)
  {
    var d := CoverageFiltered(CoarseAlignments(cdb, ndb, c), covThresh);
    var col := Column(d, Reference);
    if |d| > 0 {
      assert col[0] in Unique(col);
    }
  }

  /**
   * cluster_anin_database fails exactly when some coarse cluster fails (no alignments, or a failing
   * average_ani), with the first such error.
   */
  lemma DatabaseError(cdb: seq<CdbRow>, ndb: seq<AlignmentRow>, covThresh: real, hier: Hierarchical)
    ensures DatabaseTable(cdb, ndb, covThresh, hier).Err? <==>
            exists i :: 0 <= i < |CoarseClusters(cdb)| && CoarseFine(cdb, ndb, covThresh, hier, CoarseClusters(cdb)[i]).Err?
  {
    MapRowsSpec(CoarseClusters(cdb), FineStep(cdb, ndb, covThresh, hier));
  }
}
