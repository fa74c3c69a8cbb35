/**
 * The records of the pandas tables the clustering code passes around, each
 * table modelled as a sequence of rows, and pandas' Series.unique().
 */
module Tables {
  import opened Wrappers

  type Genome = string

  /** A row of Bdb: a genome's name and the path of its FASTA file. */
  datatype GenomeRecord = GenomeRecord(genome: Genome, location: string)

  /** The columns of a row of Mdb (the MASH table) that clustering reads. */
  datatype MashRow = MashRow(genome1: Genome, genome2: Genome, similarity: real)

  /** A row of Ndb, one per .delta file; ani is the identity of the alignment. */
  datatype AlignmentRow = AlignmentRow(
    querry: Genome,
    reference: Genome,
    alignmentLength: nat,
    similarityErrors: int,
    refCoverage: real,
    querryCoverage: real,
    ani: real,
    referenceLength: nat,
    querryLength: nat,
    alignmentCoverage: real)

  /** A row of Cdb: a genome and its coarse (MASH) cluster, plus the Bdb location when Cdb is a copy of Bdb. */
  datatype CdbRow = CdbRow(genome: Genome, mashCluster: nat, location: Option<string>)

  /** A row of the table built by cluster_graph and gen_cdb_from_fclust. */
  datatype ClusterRow = ClusterRow(cluster: nat, genome: Genome)

  /** A row of the fine-tier table: a genome and its "<coarse>_<fine>" label. */
  datatype FineRow = FineRow(genome: Genome, aninCluster: string)

  predicate Distinct<T(==)>(s: seq<T>) {
    forall i, j :: 0 <= i < j < |s| ==> s[i] != s[j]
  }

  /** Series.unique(): the distinct values, each at the place it first appears. */
  function Unique<T(==)>(s: seq<T>): (r: seq<T>)
    ensures Distinct(r)
    ensures forall i :: 0 <= i < |s| ==> s[i] in r
    ensures forall i :: 0 <= i < |r| ==> r[i] in s
    ensures |r| <= |s|
  {
    if |s| == 0 then []
    else
      var u := Unique(s[..|s| - 1]);
      if s[|s| - 1] in u then u else u + [s[|s| - 1]]
  }

  /** Series.unique() keeps the order of first appearance: r[i] occurs in s before r[j] first does. */
  lemma {:induction false} UniqueFirstAppearance<T>(s: seq<T>, i: nat, j: nat)
    requires i < j < |Unique(s)|
    ensures exists p :: 0 <= p < |s| && s[p] == Unique(s)[i] && Unique(s)[j] !in s[..p + 1]
    decreases |s|
  {
    var init, x := s[..|s| - 1], s[|s| - 1];
    var u := Unique(init);
    assert forall k :: 0 <= k <= |init| ==> s[..k] == init[..k];
    if j < |u| {
      UniqueFirstAppearance(init, i, j);
      var p :| 0 <= p < |init| && init[p] == u[i] && u[j] !in init[..p + 1];
      assert s[p] == Unique(s)[i];
    } else {
      assert Unique(s) == u + [x] && Unique(s)[j] == x && x !in init;
      var p :| 0 <= p < |init| && init[p] == u[i];
      assert x !in init[..p + 1];
      assert s[p] == Unique(s)[i];
    }
  }

  function MashCluster(row: CdbRow): nat { row.mashCluster }
  function CdbGenome(row: CdbRow): Genome { row.genome }
  function Reference(row: AlignmentRow): Genome { row.reference }

  /** The values of one column, in row order (df[column].tolist()). */
  function Column<R, T>(rows: seq<R>, f: R -> T): (r: seq<T>)
    ensures |r| == |rows| && forall i :: 0 <= i < |rows| ==> r[i] == f(rows[i])
  {
    seq(|rows|, i requires 0 <= i < |rows| => f(rows[i]))
  }

  /**
   * A table built by appending, in order, the row computed from each input, where computing a row may
   * raise: the exception of the first failing input aborts the whole table.
   */
  function MapRows<A, B, E>(xs: seq<A>, f: A -> Result<B, E>): Result<seq<B>, E>
    decreases |xs|
  {
    if |xs| == 0 then Ok([])
    else match MapRows(xs[..|xs| - 1], f)
      case Err(e) => Err(e)
      case Ok(rows) =>
        match f(xs[|xs| - 1])
        case Err(e) => Err(e)
        case Ok(row) => Ok(rows + [row])
  }

  /** Once a prefix fails, the whole table fails with the same exception. */
  lemma {:induction false} MapRowsErrorPrefix<A, B, E>(xs: seq<A>, f: A -> Result<B, E>, k: nat)
    requires k <= |xs| && MapRows(xs[..k], f).Err?
    ensures MapRows(xs, f) == MapRows(xs[..k], f)
    decreases |xs| - k
  {
    if k < |xs| {
      assert xs[..k + 1][..k] == xs[..k];
      MapRowsErrorPrefix(xs, f, k + 1);
    } else {
      assert xs[..k] == xs;
    }
  }

  /** One turn of a table-building loop: a failing input ends the table, any other appends its row. */
  lemma MapRowsStep<A, B, E>(xs: seq<A>, f: A -> Result<B, E>, k: nat, rows: seq<B>, row: Result<B, E>)
    requires k < |xs| && MapRows(xs[..k], f) == Ok(rows) && f(xs[k]) == row
    ensures row.Err? ==> MapRows(xs, f) == Err(row.error)
    ensures row.Ok? ==> MapRows(xs[..k + 1], f) == Ok(rows + [row.value])
  {
    assert xs[..k + 1][..k] == xs[..k];
    if row.Err? {
      MapRowsErrorPrefix(xs, f, k + 1);
    }
  }

  /** One row per input when nothing fails; otherwise the error of the first failing input. */
  lemma {:induction false} MapRowsSpec<A, B, E>(xs: seq<A>, f: A -> Result<B, E>)
    ensures var t := MapRows(xs, f);
            (t.Ok? <==> forall i :: 0 <= i < |xs| ==> f(xs[i]).Ok?)
            && (t.Ok? ==> |t.value| == |xs| && forall i :: 0 <= i < |xs| ==> f(xs[i]) == Ok(t.value[i]))
            && (t.Err? ==> exists i :: 0 <= i < |xs| && f(xs[i]) == Err(t.error)
                                       && forall j :: 0 <= j < i ==> f(xs[j]).Ok?)
    decreases |xs|
  {
    if |xs| > 0 {
      var init := xs[..|xs| - 1];
      MapRowsSpec(init, f);
      assert forall i :: 0 <= i < |init| ==> init[i] == xs[i];
    }
  }

  /** The rows that satisfy `p`, in their order (pandas boolean indexing, df[mask]). */
  function Filter<T>(s: seq<T>, p: T -> bool): seq<T>
    decreases |s|
  {
    if |s| == 0 then []
    else Filter(s[..|s| - 1], p) + (if p(s[|s| - 1]) then [s[|s| - 1]] else [])
  }

  /** A row is kept exactly when it is a row of the table and satisfies the mask. */
  lemma {:induction false} FilterSpec<T>(s: seq<T>, p: T -> bool, x: T)
    ensures x in Filter(s, p) <==> x in s && p(x)
    decreases |s|
  {
    if |s| > 0 {
      var init := s[..|s| - 1];
      FilterSpec(init, p, x);
      assert s == init + [s[|s| - 1]];
    }
  }

  lemma ColumnAppend<R, T>(a: seq<R>, b: seq<R>, f: R -> T)
    ensures Column(a + b, f) == Column(a, f) + Column(b, f)
  {
    var l, r := Column(a + b, f), Column(a, f) + Column(b, f);
    forall i | 0 <= i < |l| ensures l[i] == r[i] {
      if i < |a| {
        assert (a + b)[i] == a[i];
      } else {
        assert (a + b)[i] == b[i - |a|];
      }
    }
  }

  /** A value is in a column exactly when it is the value of one of the rows. */
  lemma ColumnMember<R, T>(rows: seq<R>, f: R -> T, x: T)
    ensures x in Column(rows, f) <==> exists y :: y in rows && x == f(y)
  {
    if exists y :: y in rows && x == f(y) {
      var y :| y in rows && x == f(y);
      var j :| 0 <= j < |rows| && rows[j] == y;
      assert Column(rows, f)[j] == x;
    }
  }

  /** The blocks of rows one after another (the rows appended by consecutive turns of a loop). */
  function Flatten<T>(blocks: seq<seq<T>>): seq<T>
    decreases |blocks|
  {
    if |blocks| == 0 then [] else Flatten(blocks[..|blocks| - 1]) + blocks[|blocks| - 1]
  }

  lemma FlattenSnoc<T>(blocks: seq<seq<T>>, b: seq<T>)
    ensures Flatten(blocks + [b]) == Flatten(blocks) + b
  {
    assert (blocks + [b])[..|blocks|] == blocks;
  }

  lemma FlattenPrefixSnoc<T>(blocks: seq<seq<T>>, k: nat)
    requires k < |blocks|
    ensures Flatten(blocks[..k + 1]) == Flatten(blocks[..k]) + blocks[k]
  {
    assert blocks[..k + 1][..k] == blocks[..k];
  }

  /** One more turn of a loop that appends block after block to a table. */
  lemma AppendBlock<T>(table: seq<T>, blocks: seq<seq<T>>, k: nat, t: seq<T>, t': seq<T>)
    requires k < |blocks| && t == table + Flatten(blocks[..k]) && t' == t + blocks[k]
    ensures t' == table + Flatten(blocks[..k + 1])
  {
    FlattenPrefixSnoc(blocks, k);
  }

  /** A row of the flattened table is a row of one of the blocks, and every row of every block is in it. */
  lemma {:induction false} FlattenMember<T>(blocks: seq<seq<T>>, x: T)
    ensures x in Flatten(blocks) <==> exists i :: 0 <= i < |blocks| && x in blocks[i]
    decreases |blocks|
  {
    if |blocks| > 0 {
      var n := |blocks| - 1;
      var init := blocks[..n];
      FlattenMember(init, x);
      if exists i :: 0 <= i < |blocks| && x in blocks[i] {
        var i :| 0 <= i < |blocks| && x in blocks[i];
        if i < n {
          assert init[i] == blocks[i];
        }
      }
      if exists i :: 0 <= i < n && x in init[i] {
        var i :| 0 <= i < n && x in init[i];
        assert init[i] == blocks[i];
      }
    }
  }

  /** One column of every block. */
  function MapColumns<R, T>(blocks: seq<seq<R>>, f: R -> T): (r: seq<seq<T>>)
    ensures |r| == |blocks|
  {
    seq(|blocks|, i requires 0 <= i < |blocks| => Column(blocks[i], f))
  }

  /** Taking a column commutes with flattening. */
  lemma {:induction false} ColumnFlatten<R, T>(blocks: seq<seq<R>>, f: R -> T)
    ensures Column(Flatten(blocks), f) == Flatten(MapColumns(blocks, f))
    decreases |blocks|
  {
    if |blocks| > 0 {
      var n := |blocks| - 1;
      ColumnFlatten(blocks[..n], f);
      ColumnAppend(Flatten(blocks[..n]), blocks[n], f);
      assert MapColumns(blocks, f)[..n] == MapColumns(blocks[..n], f);
    }
  }
}
