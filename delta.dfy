/**
 * Reading NUCmer output: parse_delta's totals over the lines of one .delta
 * file, the identity and coverage metrics derived from them, and
 * process_deltadir's table with one row per .delta file.
 */
module Delta {
  import opened Wrappers
  import opened Text
  import opened Tables

  // ---------------------------------------------------------------------
  // parse_delta

  /** Why a .delta file cannot be read: a blank line (Python's line[0] fails) or a field int() rejects. */
  datatype DeltaError = EmptyLine | NotAnInteger(token: string)

  /** The pair parse_delta returns: total aligned length and total similarity errors. */
  datatype Totals = Totals(alignedLength: nat, simErrors: int)

  function Abs(x: int): nat { if x < 0 then -x else x }

  /** A run header ("NUCMER") or a sequence-pair header (first token starts with '>'). */
  predicate IsHeader(line: seq<string>)
    requires |line| >= 1
  {
    line[0] == "NUCMER" || StartsWith(line[0], ">")
  }

  /** An alignment record: a non-header line of exactly seven fields. */
  predicate IsRecord(line: seq<string>) {
    |line| == 7 && !IsHeader(line)
  }

  /** The three fields of a record that parse_delta reads are integers. */
  predicate WellFormedRecord(line: seq<string>)
    requires IsRecord(line)
  {
    ParseInt(line[0]).Some? && ParseInt(line[1]).Some? && ParseInt(line[4]).Some?
  }

  /** What one line adds to the totals: |end - start| and the error count for a record, nothing otherwise. */
  function LineTotals(line: seq<string>): (r: Result<Totals, DeltaError>)
    ensures r.Ok? && !IsRecord(line) ==> r.value == Totals(0, 0)
    ensures r.Err? <==> |line| == 0 || (IsRecord(line) && !WellFormedRecord(line))
  {
    if |line| == 0 then Err(EmptyLine)
    else if !IsRecord(line) then Ok(Totals(0, 0))
    else match (ParseInt(line[1]), ParseInt(line[0]), ParseInt(line[4]))
      case (None, _, _) => Err(NotAnInteger(line[1]))
      case (Some(_), None, _) => Err(NotAnInteger(line[0]))
      case (Some(_), Some(_), None) => Err(NotAnInteger(line[4]))
      case (Some(stop), Some(start), Some(errors)) => Ok(Totals(Abs(stop - start), errors))
  }

  function Add(a: Totals, b: Totals): Totals {
    Totals(a.alignedLength + b.alignedLength, a.simErrors + b.simErrors)
  }

  /** Sequencing of two partial results: the earlier error wins. */
  function Combine(x: Result<Totals, DeltaError>, y: Result<Totals, DeltaError>): Result<Totals, DeltaError> {
    if x.Err? then x else if y.Err? then y else Ok(Add(x.value, y.value))
  }

  /** The totals of a .delta file read line by line; the first offending line decides the error. */
  function DeltaTotals(lines: seq<seq<string>>): Result<Totals, DeltaError>
    decreases |lines|
  {
    if |lines| == 0 then Ok(Totals(0, 0))
    else Combine(DeltaTotals(lines[..|lines| - 1]), LineTotals(lines[|lines| - 1]))
  }

  /** parse_delta, reading the lines of the file already split into tokens. */
  method ParseDelta(lines: seq<seq<string>>) returns (r: Result<Totals, DeltaError>)
    ensures r == DeltaTotals(lines)
  {
    var alnLength: nat, simErrors: int := 0, 0;
    var i := 0;
    while i < |lines|
      invariant 0 <= i <= |lines|
      invariant DeltaTotals(lines[..i]) == Ok(Totals(alnLength, simErrors))
    {
      var line := lines[i];
      assert lines[..i + 1][..i] == lines[..i];
      if |line| == 0 {
        ErrorPrefix(lines, i + 1);
        return Err(EmptyLine);
      }
      if line[0] == "NUCMER" || StartsWith(line[0], ">") {
        i := i + 1;
        continue;
      }
      if |line| == 7 {
        var stop := ParseInt(line[1]);
        var start := ParseInt(line[0]);
        var errors := ParseInt(line[4]);
        if stop.None? {
          ErrorPrefix(lines, i + 1);
          return Err(NotAnInteger(line[1]));
        }
        if start.None? {
          ErrorPrefix(lines, i + 1);
          return Err(NotAnInteger(line[0]));
        }
        if errors.None? {
          ErrorPrefix(lines, i + 1);
          return Err(NotAnInteger(line[4]));
        }
        alnLength := alnLength + Abs(stop.value - start.value);
        simErrors := simErrors + errors.value;
      }
      i := i + 1;
    }
    assert lines[..|lines|] == lines;
    r := Ok(Totals(alnLength, simErrors));
  }

  lemma CombineAssoc(x: Result<Totals, DeltaError>, y: Result<Totals, DeltaError>, z: Result<Totals, DeltaError>)
    ensures Combine(Combine(x, y), z) == Combine(x, Combine(y, z))
  {
  }

  /** The totals of a concatenation combine the totals of its parts. */
  lemma {:induction false} DeltaTotalsAppend(a: seq<seq<string>>, b: seq<seq<string>>)
    ensures DeltaTotals(a + b) == Combine(DeltaTotals(a), DeltaTotals(b))
    decreases |b|
  {
    if |b| == 0 {
      assert a + b == a;
    } else {
      var init, last := b[..|b| - 1], b[|b| - 1];
      var ab := a + b;
      assert ab[..|ab| - 1] == a + init && ab[|ab| - 1] == last;
      assert DeltaTotals(ab) == Combine(DeltaTotals(a + init), LineTotals(last));
      DeltaTotalsAppend(a, init);
      CombineAssoc(DeltaTotals(a), DeltaTotals(init), LineTotals(last));
    }
  }

  /** Once a prefix fails, the whole file fails with the same error. */
  lemma ErrorPrefix(lines: seq<seq<string>>, k: nat)
    requires k <= |lines| && DeltaTotals(lines[..k]).Err?
    ensures DeltaTotals(lines) == DeltaTotals(lines[..k])
  {
    DeltaTotalsAppend(lines[..k], lines[k..]);
    assert lines[..k] + lines[k..] == lines;
  }

  /** The file is readable exactly when every one of its lines is. */
  lemma {:induction false} DeltaTotalsOk(lines: seq<seq<string>>)
    ensures DeltaTotals(lines).Ok? <==> forall i :: 0 <= i < |lines| ==> LineTotals(lines[i]).Ok?
    decreases |lines|
  {
    if |lines| > 0 {
      var init, last := lines[..|lines| - 1], lines[|lines| - 1];
      DeltaTotalsOk(init);
      assert DeltaTotals(lines) == Combine(DeltaTotals(init), LineTotals(last));
      assert DeltaTotals(lines).Ok? <==> DeltaTotals(init).Ok? && LineTotals(last).Ok?;
      assert forall i :: 0 <= i < |init| ==> init[i] == lines[i];
    }
  }

  /** The alignment records of a file, in order. */
  function Records(lines: seq<seq<string>>): (r: seq<seq<string>>)
    ensures forall i :: 0 <= i < |r| ==> IsRecord(r[i])
  {
    if |lines| == 0 then []
    else Records(lines[..|lines| - 1]) + (if IsRecord(lines[|lines| - 1]) then [lines[|lines| - 1]] else [])
  }

  /** Headers and lines of other lengths contribute nothing: on a file without blank lines only the records count. */
  lemma {:induction false} OnlyRecordsCount(lines: seq<seq<string>>)
    requires forall i :: 0 <= i < |lines| ==> |lines[i]| >= 1
    ensures DeltaTotals(lines) == DeltaTotals(Records(lines))
    decreases |lines|
  {
    if |lines| > 0 {
      var init := lines[..|lines| - 1];
      var last := lines[|lines| - 1];
      assert forall i :: 0 <= i < |init| ==> init[i] == lines[i];
      OnlyRecordsCount(init);
      if IsRecord(last) {
        var r := Records(init) + [last];
        assert r[..|r| - 1] == Records(init);
      } else {
        assert Records(lines) == Records(init);
      }
    }
  }

  /** |end - start| of a well-formed record. */
  function RecordLength(line: seq<string>): nat
    requires IsRecord(line) && WellFormedRecord(line)
  {
    Abs(ParseInt(line[1]).value - ParseInt(line[0]).value)
  }

  /** Aligned length summed over the well-formed records. */
  function AlignedSum(lines: seq<seq<string>>): nat {
    if |lines| == 0 then 0
    else
      var last := lines[|lines| - 1];
      AlignedSum(lines[..|lines| - 1]) + (if IsRecord(last) && WellFormedRecord(last) then RecordLength(last) else 0)
  }

  /** The error field summed over the well-formed records. */
  function ErrorSum(lines: seq<seq<string>>): int {
    if |lines| == 0 then 0
    else
      var last := lines[|lines| - 1];
      ErrorSum(lines[..|lines| - 1]) + (if IsRecord(last) && WellFormedRecord(last) then ParseInt(last[4]).value else 0)
  }

  /** A readable file's totals are the sums of |field 2 - field 1| and of field 5 over its records. */
  lemma {:induction false} DeltaTotalsAreSums(lines: seq<seq<string>>)
    requires DeltaTotals(lines).Ok?
    ensures DeltaTotals(lines).value == Totals(AlignedSum(lines), ErrorSum(lines))
    decreases |lines|
  {
    if |lines| > 0 {
      DeltaTotalsAreSums(lines[..|lines| - 1]);
    }
  }

  // ---------------------------------------------------------------------
  // Metrics of one alignment

  /** perc_id: one minus the error rate, and the designed value 0 for an empty alignment. */
  function Identity(t: Totals): real {
    if t.alignedLength == 0 then 0.0 else 1.0 - (t.simErrors as real) / (t.alignedLength as real)
  }

  /** Fraction of one genome covered by the alignment. */
  function Coverage(alignedLength: nat, genomeLength: nat): real
    requires genomeLength > 0
  {
    (alignedLength as real) / (genomeLength as real)
  }

  /** Combined coverage: twice the aligned length over the two genome lengths together. */
  function AlignmentCoverage(alignedLength: nat, querryLength: nat, referenceLength: nat): real
    requires querryLength + referenceLength > 0
  {
    ((2 * alignedLength) as real) / ((querryLength + referenceLength) as real)
  }

  /** The Ndb row for the pair (querry, reference) with the given totals and genome lengths. */
  function MetricsRow(querry: Genome, reference: Genome, t: Totals, querryLength: nat, referenceLength: nat): AlignmentRow
    requires querryLength > 0 && referenceLength > 0
  {
    AlignmentRow(
      querry := querry,
      reference := reference,
      alignmentLength := t.alignedLength,
      similarityErrors := t.simErrors,
      refCoverage := Coverage(t.alignedLength, referenceLength),
      querryCoverage := Coverage(t.alignedLength, querryLength),
      ani := Identity(t),
      referenceLength := referenceLength,
      querryLength := querryLength,
      alignmentCoverage := AlignmentCoverage(t.alignedLength, querryLength, referenceLength))
  }

  /** With no more errors than aligned bases, identity lies in [0, 1], and is 1 exactly when there are no errors. */
  lemma IdentityBounds(t: Totals)
    requires 0 <= t.simErrors <= t.alignedLength
    ensures 0.0 <= Identity(t) <= 1.0
    ensures t.alignedLength > 0 ==> (Identity(t) == 1.0 <==> t.simErrors == 0)
  {
    if t.alignedLength > 0 {
      var n := t.alignedLength as real;
      var e := t.simErrors as real;
      assert 0.0 <= e / n <= 1.0 by { DivBounds(e, n); }
    }
  }

  lemma DivBounds(e: real, n: real)
    requires 0.0 <= e <= n && n > 0.0
    ensures 0.0 <= e / n <= 1.0
    ensures e / n == 0.0 <==> e == 0.0
  {
    assert (e / n) * n == e;
  }

  /** x / z <= x / y for 0 < y <= z and x >= 0. */
  lemma DivAntitone(x: real, y: real, z: real)
    requires x >= 0.0 && 0.0 < y <= z
    ensures x / z <= x / y
  {
    var p, q := x / y, x / z;
    assert p * y == x && q * z == x;
    assert q * y <= q * z;
  }

  /** The combined coverage lies between the two single-genome coverages. */
  lemma AlignmentCoverageBetween(alignedLength: nat, querryLength: nat, referenceLength: nat)
    requires querryLength > 0 && referenceLength > 0
    ensures var cq, cr := Coverage(alignedLength, querryLength), Coverage(alignedLength, referenceLength);
            var ca := AlignmentCoverage(alignedLength, querryLength, referenceLength);
            (cq <= ca <= cr) || (cr <= ca <= cq)
  {
    var n := alignedLength as real;
    var a, b := querryLength as real, referenceLength as real;
    var m := (a + b) / 2.0;
    assert AlignmentCoverage(alignedLength, querryLength, referenceLength) == n / m;
    if a <= b {
      DivAntitone(n, a, m);
      DivAntitone(n, m, b);
    } else {
      DivAntitone(n, b, m);
      DivAntitone(n, m, a);
    }
  }

  lemma SumOfQuotients(n: real, a: real, b: real)
    requires a > 0.0 && b > 0.0
    ensures n / a + n / b == n * (a + b) / (a * b)
  {
    assert (n / a) * (a * b) == n * b;
    assert (n / b) * (a * b) == n * a;
    assert (n / a + n / b) * (a * b) == n * (a + b);
  }

  lemma ProductOfQuotients(n: real, a: real, b: real)
    requires a > 0.0 && b > 0.0
    ensures 2.0 * (n / a) * (n / b) == 2.0 * n * n / (a * b)
  {
    assert (n / a) * (n / b) * (a * b) == n * n;
  }

  lemma QuotientOfQuotients(p: real, q: real, d: real)
    requires q != 0.0 && d > 0.0
    ensures (p / d) / (q / d) == p / q
  {
    assert (p / d) * d == p && (q / d) * d == q;
    assert ((p / d) / (q / d)) * (q / d) == p / d;
  }

  /** For a non-empty alignment the combined coverage is the harmonic mean of the two coverages. */
  lemma AlignmentCoverageHarmonic(alignedLength: nat, querryLength: nat, referenceLength: nat)
    requires querryLength > 0 && referenceLength > 0 && alignedLength > 0
    ensures var cq, cr := Coverage(alignedLength, querryLength), Coverage(alignedLength, referenceLength);
            AlignmentCoverage(alignedLength, querryLength, referenceLength) == 2.0 * cq * cr / (cq + cr)
  {
    var n := alignedLength as real;
    var a, b := querryLength as real, referenceLength as real;
    SumOfQuotients(n, a, b);
    ProductOfQuotients(n, a, b);
    QuotientOfQuotients(2.0 * n * n, n * (a + b), a * b);
    assert (2.0 * n * n) / (n * (a + b)) == 2.0 * n / (a + b) by {
      QuotientOfQuotients(2.0 * n, a + b, 1.0 / n);
    }
  }

  /** Swapping the two genomes swaps the two single coverages and keeps identity and combined coverage. */
  lemma MetricsSwap(q: Genome, s: Genome, t: Totals, lq: nat, ls: nat)
    requires lq > 0 && ls > 0
    ensures MetricsRow(s, q, t, ls, lq).querryCoverage == MetricsRow(q, s, t, lq, ls).refCoverage
    ensures MetricsRow(s, q, t, ls, lq).refCoverage == MetricsRow(q, s, t, lq, ls).querryCoverage
    ensures MetricsRow(s, q, t, ls, lq).alignmentCoverage == MetricsRow(q, s, t, lq, ls).alignmentCoverage
    ensures MetricsRow(s, q, t, ls, lq).ani == MetricsRow(q, s, t, lq, ls).ani
  {
    assert (ls + lq) as real == (lq + ls) as real;
  }

  // ---------------------------------------------------------------------
  // process_deltadir

  /** One .delta file of the directory: its path and its lines, each split into whitespace-separated tokens. */
  datatype DeltaFile = DeltaFile(path: string, lines: seq<seq<string>>)

  /** The exceptions process_deltadir lets through. */
  datatype DirError =
    | BadFileName(path: string)                     // the stem does not split into exactly two names
    | BadDelta(path: string, cause: DeltaError)     // parse_delta failed
    | UnknownGenome(name: Genome)                   // org_lengths has no entry
    | ZeroGenomeLength(name: Genome)                // a coverage divides by zero

  /** The (querry, reference) names encoded in a "<q>_vs_<r>.<ext>" path. */
  function PairFromDeltaPath(path: string): Result<(Genome, Genome), DirError> {
    var parts := Split(StripExtension(Basename(path)), VS);
    if |parts| == 2 then Ok((parts[0], parts[1])) else Err(BadFileName(path))
  }

  /**
   * The recovered names are the two sides of the file's stem around its only "_vs_";
   * a stem that does not split into exactly two names raises.
   */
  lemma PairFromDeltaPathSpec(path: string)
    ensures var r := PairFromDeltaPath(path);
            (r.Ok? ==> StripExtension(Basename(path)) == r.value.0 + VS + r.value.1
                       && !Contains(r.value.0, VS) && !Contains(r.value.1, VS))
            && (r.Err? ==> r.error == BadFileName(path))
  {
    var stem := StripExtension(Basename(path));
    var parts := Split(stem, VS);
    SplitJoin(stem, VS);
    SplitPiecesClean(stem, VS);
    if |parts| == 2 {
      assert parts[1..] == [parts[1]];
    }
  }

  /** A genome length that process_deltadir can divide by. */
  function GenomeLength(lengths: map<Genome, nat>, name: Genome): (r: Result<nat, DirError>)
    ensures r.Ok? <==> name in lengths && lengths[name] > 0
    ensures r.Ok? ==> r.value == lengths[name]
  {
    if name !in lengths then Err(UnknownGenome(name))
    else if lengths[name] == 0 then Err(ZeroGenomeLength(name))
    else Ok(lengths[name])
  }

  /** The row process_deltadir makes of one file, or the exception it raises on it. */
  function DeltaRow(file: DeltaFile, lengths: map<Genome, nat>): Result<AlignmentRow, DirError> {
    match PairFromDeltaPath(file.path)
    case Err(e) => Err(e)
    case Ok((q, s)) =>
      match DeltaTotals(file.lines)
      case Err(e) => Err(BadDelta(file.path, e))
      case Ok(t) =>
        match GenomeLength(lengths, q)
        case Err(e) => Err(e)
        case Ok(lq) =>
          match GenomeLength(lengths, s)
          case Err(e) => Err(e)
          case Ok(ls) => Ok(MetricsRow(q, s, t, lq, ls))
  }

  /** The body of process_deltadir's loop for one file: recover the names, parse, and compute the metrics. */
  method ProcessDeltaFile(file: DeltaFile, lengths: map<Genome, nat>) returns (r: Result<AlignmentRow, DirError>)
    ensures r == DeltaRow(file, lengths)
  {
    var names := PairFromDeltaPath(file.path);
    if names.Err? {
      return Err(names.error);
    }
    var (qname, sname) := names.value;
    var totals := ParseDelta(file.lines);
    if totals.Err? {
      return Err(BadDelta(file.path, totals.error));
    }
    var lq := GenomeLength(lengths, qname);
    if lq.Err? {
      return Err(lq.error);
    }
    var ls := GenomeLength(lengths, sname);
    if ls.Err? {
      return Err(ls.error);
    }
    r := Ok(MetricsRow(qname, sname, totals.value, lq.value, ls.value));
  }

  /** The table of process_deltadir over the files the directory glob returned, or the first exception raised. */
  function RowOf(lengths: map<Genome, nat>): DeltaFile -> Result<AlignmentRow, DirError> {
    (file: DeltaFile) => DeltaRow(file, lengths)
  }

  function DeltaDirTable(files: seq<DeltaFile>, lengths: map<Genome, nat>): Result<seq<AlignmentRow>, DirError> {
    MapRows(files, RowOf(lengths))
  }

  /** One turn of process_deltadir's loop: the row of file k, or the exception that ends the table. */
  method ProcessNextFile(files: seq<DeltaFile>, lengths: map<Genome, nat>, k: nat, table: seq<AlignmentRow>)
    returns (row: Result<AlignmentRow, DirError>)
    requires k < |files| && MapRows(files[..k], RowOf(lengths)) == Ok(table)
    ensures row.Err? ==> DeltaDirTable(files, lengths) == Err(row.error)
    ensures row.Ok? ==> MapRows(files[..k + 1], RowOf(lengths)) == Ok(table + [row.value])
  {
    row := ProcessDeltaFile(files[k], lengths);
    MapRowsStep(files, RowOf(lengths), k, table, row);
  }

  /** process_deltadir: one row per file, appended in glob order. */
  method ProcessDeltaDir(files: seq<DeltaFile>, lengths: map<Genome, nat>) returns (r: Result<seq<AlignmentRow>, DirError>)
    ensures r == DeltaDirTable(files, lengths)
  {
    var table: seq<AlignmentRow> := [];
    var k := 0;
    while k < |files|
      invariant 0 <= k <= |files|
      invariant MapRows(files[..k], RowOf(lengths)) == Ok(table)
    {
      var row := ProcessNextFile(files, lengths, k, table);
      if row.Err? {
        return Err(row.error);
      }
      table, k := table + [row.value], k + 1;
    }
    assert files[..|files|] == files;
    r := Ok(table);
  }

  /**
   * process_deltadir yields exactly one row per .delta file, the row DeltaRow makes of it, when no file
   * raises; otherwise it raises what the first failing file raises.
   */
  lemma DeltaDirOneRowPerFile(files: seq<DeltaFile>, lengths: map<Genome, nat>)
    ensures var t := DeltaDirTable(files, lengths);
            (t.Ok? <==> forall i :: 0 <= i < |files| ==> DeltaRow(files[i], lengths).Ok?)
            && (t.Ok? ==> |t.value| == |files| && forall i :: 0 <= i < |files| ==> DeltaRow(files[i], lengths) == Ok(t.value[i]))
            && (t.Err? ==> exists i :: 0 <= i < |files| && DeltaRow(files[i], lengths) == Err(t.error)
                                       && forall j :: 0 <= j < i ==> DeltaRow(files[j], lengths).Ok?)
  {
    var f := RowOf(lengths);
    MapRowsSpec(files, f);
    assert forall i :: 0 <= i < |files| ==> f(files[i]) == DeltaRow(files[i], lengths);
  }
}
