/**
 * Generating the NUCmer jobs for one coarse cluster: the argument vector of
 * one run (gen_nucmer_cmd), the parameter presets (nucmer_preset) and the
 * ordered cross product of genome pairs (gen_nucmer_commands), together with
 * the file naming that process_deltadir later reads back.
 */
module Nucmer {
  import opened Wrappers
  import opened Text
  import opened Tables
  import Delta

  /** The settings of one nucmer run, as gen_nucmer_cmd receives them. */
  datatype NucmerJob = NucmerJob(prefix: string, ref: string, querry: string, c: int, maxgap: int, noextend: bool, algorithm: string)

  /** `cmd` is the argument vector of `job`: the fixed options, "--noextend" when asked for, then ref and querry last. */
  predicate IsNucmerCmd(cmd: seq<string>, job: NucmerJob) {
    && |cmd| == (if job.noextend then 11 else 10)
    && cmd[0] == "nucmer" && cmd[1] == "--" + job.algorithm && cmd[2] == "-p" && cmd[3] == job.prefix
    && cmd[4] == "-c" && cmd[5] == IntToString(job.c) && cmd[6] == "-g" && cmd[7] == IntToString(job.maxgap)
    && (job.noextend ==> cmd[8] == "--noextend")
    && cmd[|cmd| - 2] == job.ref && cmd[|cmd| - 1] == job.querry
  }

  /** gen_nucmer_cmd */
  method GenNucmerCmd(prefix: string, ref: string, querry: string, c: int, noextend: bool, maxgap: int, algorithm: string)
    returns (cmd: seq<string>)
    ensures IsNucmerCmd(cmd, NucmerJob(prefix, ref, querry, c, maxgap, noextend, algorithm))
  {
    cmd := ["nucmer", "--" + algorithm, "-p", prefix, "-c", IntToString(c), "-g", IntToString(maxgap)];
    if noextend {
      cmd := cmd + ["--noextend"];
    }
    cmd := cmd + [ref, querry];
  }

  /** Reads the job back from an argument vector of the shape gen_nucmer_cmd builds. */
  function ParseNucmerCmd(cmd: seq<string>): Option<NucmerJob> {
    if |cmd| != 10 && |cmd| != 11 then None
    else if |cmd| == 11 && cmd[8] != "--noextend" then None
    else if cmd[0] != "nucmer" || !StartsWith(cmd[1], "--") || cmd[2] != "-p" || cmd[4] != "-c" || cmd[6] != "-g" then None
    else match (ParseInt(cmd[5]), ParseInt(cmd[7]))
      case (Some(c), Some(maxgap)) =>
        Some(NucmerJob(cmd[3], cmd[|cmd| - 2], cmd[|cmd| - 1], c, maxgap, |cmd| == 11, cmd[1][2..]))
      case _ => None
  }

  /** Every vector gen_nucmer_cmd builds can be read back into the job it was built from. */
  lemma ParseNucmerCmdRoundTrip(cmd: seq<string>, job: NucmerJob)
    requires IsNucmerCmd(cmd, job)
    ensures ParseNucmerCmd(cmd) == Some(job)
  {
    ParseIntToString(job.c);
    ParseIntToString(job.maxgap);
    assert cmd[1][..2] == "--";
    assert cmd[1][2..] == job.algorithm;
    if !job.noextend {
      assert |cmd| == 10;
    }
  }

  /** The vector and the job determine each other. */
  lemma NucmerCmdUnique(cmd1: seq<string>, cmd2: seq<string>, job1: NucmerJob, job2: NucmerJob)
    requires IsNucmerCmd(cmd1, job1) && IsNucmerCmd(cmd2, job2)
    ensures cmd1 == cmd2 <==> job1 == job2
  {
    ParseNucmerCmdRoundTrip(cmd1, job1);
    ParseNucmerCmdRoundTrip(cmd2, job2);
    if job1 == job2 {
      assert |cmd1| == |cmd2|;
      forall i | 0 <= i < |cmd1| ensures cmd1[i] == cmd2[i] {
      }
    }
  }

  // ---------------------------------------------------------------------
  // nucmer_preset

  /** The parameter tuple (c, maxgap, noextend, algorithm) of a preset. */
  datatype Preset = Preset(c: int, maxgap: int, noextend: bool, algorithm: string)

  /** nucmer_preset; any name other than "tight" or "normal" fails its assertion. */
  function NucmerPreset(name: string): (r: Result<Preset, string>)
    ensures r.Ok? <==> name == "tight" || name == "normal"
    ensures name == "tight" ==> r == Ok(Preset(65, 1, true, "mum"))
    ensures name == "normal" ==> r == Ok(Preset(65, 90, false, "mum"))
  {
    if name == "tight" then Ok(Preset(65, 1, true, "mum"))
    else if name == "normal" then Ok(Preset(65, 90, false, "mum"))
    else Err(name)
  }

  /** A job run with the settings of a preset. */
  function PresetJob(p: Preset, prefix: string, ref: string, querry: string): NucmerJob {
    NucmerJob(prefix, ref, querry, p.c, p.maxgap, p.noextend, p.algorithm)
  }

  /**
   * What a preset puts on the nucmer command line: "--mum -c 65" in both; "-g 1 --noextend" for tight,
   * "-g 90" and no "--noextend" for normal.
   */
  lemma PresetCommandLine(name: string, prefix: string, ref: string, querry: string, cmd: seq<string>)
    requires NucmerPreset(name).Ok?
    requires IsNucmerCmd(cmd, PresetJob(NucmerPreset(name).value, prefix, ref, querry))
    ensures cmd[1] == "--mum" && cmd[5] == "65"
    ensures cmd[7] == (if name == "tight" then "1" else "90")
    ensures |cmd| == 11 <==> name == "tight"
    ensures name == "tight" ==> cmd[8] == "--noextend"
  {
    assert NatToString(6) == "6" && NatToString(9) == "9";
    assert NatToString(65) == "65" && NatToString(90) == "90";
  }

  // ---------------------------------------------------------------------
  // gen_nucmer_commands and the names of the output files

  /** The output prefix gen_nucmer_commands gives the run of g1 against g2. */
  function PairPrefix(outf: string, g1: string, g2: string): string {
    outf + Basename(g1) + VS + Basename(g2)
  }

  /** The job of the ordered pair (g1, g2): g1 is nucmer's reference, g2 its query. */
  function PairJob(outf: string, g1: string, g2: string, c: int, maxgap: int, noextend: bool, algorithm: string): NucmerJob {
    NucmerJob(PairPrefix(outf, g1, g2), g1, g2, c, maxgap, noextend, algorithm)
  }

  /** The ordered pairs (g, x) for x in `others`, in order. */
  function Row(g: string, others: seq<string>): seq<(string, string)>
    decreases |others|
  {
    if others == [] then [] else Row(g, others[..|others| - 1]) + [(g, others[|others| - 1])]
  }

  /** The ordered pairs of the nested loop over `outer` and `inner`, the outer genome varying slowest. */
  function CrossPairs(outer: seq<string>, inner: seq<string>): seq<(string, string)>
    decreases |outer|
  {
    if outer == [] then [] else CrossPairs(outer[..|outer| - 1], inner) + Row(outer[|outer| - 1], inner)
  }

  lemma {:induction false} RowIndex(g: string, others: seq<string>)
    ensures |Row(g, others)| == |others|
    ensures forall b :: 0 <= b < |others| ==> Row(g, others)[b] == (g, others[b])
    decreases |others|
  {
    if others != [] {
      RowIndex(g, others[..|others| - 1]);
    }
  }

  /** The cross product has |outer| * |inner| pairs. */
  lemma {:induction false} CrossPairsLength(outer: seq<string>, inner: seq<string>)
    ensures |CrossPairs(outer, inner)| == |outer| * |inner|
    decreases |outer|
  {
    if outer != [] {
      CrossPairsLength(outer[..|outer| - 1], inner);
      RowIndex(outer[|outer| - 1], inner);
      MulPred(|outer|, |inner|);
    }
  }

  /** Position a * |inner| + b of the cross product holds the pair (outer[a], inner[b]). */
  lemma {:induction false} CrossPairsAt(outer: seq<string>, inner: seq<string>, a: nat, b: nat)
    requires a < |outer| && b < |inner|
    ensures 0 <= a * |inner| + b < |CrossPairs(outer, inner)|
    ensures CrossPairs(outer, inner)[a * |inner| + b] == (outer[a], inner[b])
    decreases |outer|
  {
    var init, m := outer[..|outer| - 1], |inner|;
    var prev, row := CrossPairs(init, inner), Row(outer[|outer| - 1], inner);
    assert CrossPairs(outer, inner) == prev + row;
    CrossPairsLength(init, inner);
    RowIndex(outer[|outer| - 1], inner);
    MulNonneg(a, m);
    if a < |init| {
      CrossPairsAt(init, inner, a, b);
      RowMajorBefore(a, b, |init|, m);
    } else {
      assert a * m == |prev|;
      assert (prev + row)[|prev| + b] == row[b];
    }
  }

  lemma MulNonneg(x: nat, m: nat)
    ensures 0 <= x * m
  {
  }

  lemma MulPred(x: nat, m: nat)
    requires x >= 1
    ensures x * m == (x - 1) * m + m
  {
  }

  /** Index a * n + b falls before row i when a < i and b < n. */
  lemma RowMajorBefore(a: nat, b: nat, i: nat, n: nat)
    requires a < i && b < n
    ensures a * n + b < i * n
  {
    assert (a + 1) * n <= i * n by {
      assert i * n - (a + 1) * n == (i - (a + 1)) * n;
    }
  }

  /** The job of a pair (g1, g2) of the cross product with the given settings. */
  function JobOf(outf: string, pair: (string, string), c: int, maxgap: int, noextend: bool, algorithm: string): NucmerJob {
    PairJob(outf, pair.0, pair.1, c, maxgap, noextend, algorithm)
  }

  /** cmds[k] is the command of the pair pairs[k], for every k. */
  ghost predicate CommandsFor(cmds: seq<seq<string>>, pairs: seq<(string, string)>,
                              outf: string, c: int, maxgap: int, noextend: bool, algorithm: string) {
    && |cmds| == |pairs|
    && forall k :: 0 <= k < |cmds| ==> IsNucmerCmd(cmds[k], JobOf(outf, pairs[k], c, maxgap, noextend, algorithm))
  }

  lemma CommandsForSnoc(cmds: seq<seq<string>>, pairs: seq<(string, string)>, cmd: seq<string>, pair: (string, string),
                        outf: string, c: int, maxgap: int, noextend: bool, algorithm: string)
    requires CommandsFor(cmds, pairs, outf, c, maxgap, noextend, algorithm)
    requires IsNucmerCmd(cmd, JobOf(outf, pair, c, maxgap, noextend, algorithm))
    ensures CommandsFor(cmds + [cmd], pairs + [pair], outf, c, maxgap, noextend, algorithm)
  {
    var cmds', pairs' := cmds + [cmd], pairs + [pair];
    forall k | 0 <= k < |cmds'|
      ensures IsNucmerCmd(cmds'[k], JobOf(outf, pairs'[k], c, maxgap, noextend, algorithm))
    {
      if k < |cmds| {
        assert cmds'[k] == cmds[k] && pairs'[k] == pairs[k];
      }
    }
  }

  /** The inner loop of gen_nucmer_commands: the commands of g against each genome of `genomes`, in order. */
  method AppendRowCommands(cmds0: seq<seq<string>>, ghost done: seq<(string, string)>, g: string, genomes: seq<string>,
                           outf: string, c: int, maxgap: int, noextend: bool, algorithm: string)
    returns (cmds: seq<seq<string>>)
    requires CommandsFor(cmds0, done, outf, c, maxgap, noextend, algorithm)
    ensures CommandsFor(cmds, done + Row(g, genomes), outf, c, maxgap, noextend, algorithm)
  {
    cmds := cmds0;
    var j := 0;
    while j < |genomes|
      invariant 0 <= j <= |genomes|
      invariant CommandsFor(cmds, done + Row(g, genomes[..j]), outf, c, maxgap, noextend, algorithm)
    {
      var out := outf + Basename(g) + VS + Basename(genomes[j]);
      var cmd := GenNucmerCmd(out, g, genomes[j], c, noextend, maxgap, algorithm);
      ghost var pairs := done + Row(g, genomes[..j]);
      CommandsForSnoc(cmds, pairs, cmd, (g, genomes[j]), outf, c, maxgap, noextend, algorithm);
      assert genomes[..j + 1][..j] == genomes[..j];
      assert done + Row(g, genomes[..j + 1]) == pairs + [(g, genomes[j])];
      cmds := cmds + [cmd];
      j := j + 1;
    }
    assert genomes[..j] == genomes;
  }

  /** gen_nucmer_commands: one command per pair of CrossPairs(genomes, genomes), in that order. */
  method GenNucmerCommands(genomes: seq<string>, outf: string, c: int, maxgap: int, noextend: bool, algorithm: string)
    returns (cmds: seq<seq<string>>)
    ensures |cmds| == |CrossPairs(genomes, genomes)|
    ensures forall k :: 0 <= k < |cmds| ==>
              IsNucmerCmd(cmds[k], JobOf(outf, CrossPairs(genomes, genomes)[k], c, maxgap, noextend, algorithm))
  {
    cmds := [];
    var i := 0;
    while i < |genomes|
      invariant 0 <= i <= |genomes|
      invariant CommandsFor(cmds, CrossPairs(genomes[..i], genomes), outf, c, maxgap, noextend, algorithm)
    {
      cmds := AppendRowCommands(cmds, CrossPairs(genomes[..i], genomes), genomes[i], genomes, outf, c, maxgap, noextend, algorithm);
      assert genomes[..i + 1][..i] == genomes[..i];
      i := i + 1;
    }
    assert genomes[..i] == genomes;
  }

  /** The commands gen_nucmer_commands returns: n * n of them, the one at i * n + j running genome i against genome j. */
  lemma CommandAt(genomes: seq<string>, outf: string, c: int, maxgap: int, noextend: bool, algorithm: string,
                  cmds: seq<seq<string>>, i: nat, j: nat)
    requires |cmds| == |CrossPairs(genomes, genomes)|
    requires forall k :: 0 <= k < |cmds| ==>
               IsNucmerCmd(cmds[k], JobOf(outf, CrossPairs(genomes, genomes)[k], c, maxgap, noextend, algorithm))
    requires i < |genomes| && j < |genomes|
    ensures |cmds| == |genomes| * |genomes|
    ensures 0 <= i * |genomes| + j < |cmds|
    ensures IsNucmerCmd(cmds[i * |genomes| + j], PairJob(outf, genomes[i], genomes[j], c, maxgap, noextend, algorithm))
  {
    CrossPairsLength(genomes, genomes);
    CrossPairsAt(genomes, genomes, i, j);
  }

  /** The .delta file nucmer writes for a run: its prefix with the extension appended. */
  function DeltaPath(prefix: string): string {
    prefix + ".delta"
  }

  /**
   * process_deltadir recovers the pair (basename g1, basename g2) from the file of the run that
   * gen_nucmer_commands names after (g1, g2), when neither name contains "_vs_" and the first does
   * not end in "_vs". The first name, reported as querry, is the genome nucmer was given as reference.
   */
  lemma DeltaNameRoundTrip(outf: string, g1: string, g2: string)
    requires outf == "" || outf[|outf| - 1] == '/'
    requires !Contains(Basename(g1), VS) && !Contains(Basename(g2), VS)
    requires !EndsWith(Basename(g1), "_vs")
    ensures Delta.PairFromDeltaPath(DeltaPath(PairPrefix(outf, g1, g2))) == Ok((Basename(g1), Basename(g2)))
  {
    var b1, b2 := Basename(g1), Basename(g2);
    BasenameSpec(g1);
    BasenameSpec(g2);
    DeltaFileStem(outf, b1, b2);
    SplitVsPair(b1, b2);
  }

  lemma ConcatAssoc(p: string, a: string, b: string, e: string)
    ensures p + a + VS + b + e == p + (a + VS + b + e)
  {
  }

  /** The stem process_deltadir takes from the .delta file of the pair prefix outf + b1 + "_vs_" + b2. */
  lemma DeltaFileStem(outf: string, b1: string, b2: string)
    requires outf == "" || outf[|outf| - 1] == '/'
    requires '/' !in b1 && '/' !in b2
    ensures StripExtension(Basename(outf + b1 + VS + b2 + ".delta")) == b1 + VS + b2
  {
    DeltaFileName(outf, b1, b2);
    assert (b1 + VS + b2)[|b1|] != '.';
    StripDeltaExtension(b1 + VS + b2);
  }

  /** The file name of the .delta file of the pair prefix outf + b1 + "_vs_" + b2. */
  lemma DeltaFileName(outf: string, b1: string, b2: string)
    requires outf == "" || outf[|outf| - 1] == '/'
    requires '/' !in b1 && '/' !in b2
    ensures Basename(outf + b1 + VS + b2 + ".delta") == b1 + VS + b2 + ".delta"
  {
    var name := b1 + VS + b2 + ".delta";
    ConcatAssoc(outf, b1, b2, ".delta");
    assert '/' !in name;
    BasenameOfJoin(outf, name);
  }

  /**
   * The run of the pair at position i * n + j is the one whose .delta file process_deltadir reads
   * back as querry basename(g_i) and reference basename(g_j).
   */
  lemma CommandsCoverAllRows(genomes: seq<string>, outf: string, c: int, maxgap: int, noextend: bool, algorithm: string,
                             cmds: seq<seq<string>>, i: nat, j: nat)
    requires outf == "" || outf[|outf| - 1] == '/'
    requires forall g :: g in genomes ==> !Contains(Basename(g), VS) && !EndsWith(Basename(g), "_vs")
    requires |cmds| == |CrossPairs(genomes, genomes)|
    requires forall k :: 0 <= k < |cmds| ==>
               IsNucmerCmd(cmds[k], JobOf(outf, CrossPairs(genomes, genomes)[k], c, maxgap, noextend, algorithm))
    requires i < |genomes| && j < |genomes|
    ensures 0 <= i * |genomes| + j < |cmds|
    ensures ParseNucmerCmd(cmds[i * |genomes| + j]).Some?
    ensures var job := ParseNucmerCmd(cmds[i * |genomes| + j]).value;
            job.ref == genomes[i] && job.querry == genomes[j]
            && Delta.PairFromDeltaPath(DeltaPath(job.prefix)) == Ok((Basename(genomes[i]), Basename(genomes[j])))
  {
    CommandAt(genomes, outf, c, maxgap, noextend, algorithm, cmds, i, j);
    var job := PairJob(outf, genomes[i], genomes[j], c, maxgap, noextend, algorithm);
    assert genomes[i] in genomes && genomes[j] in genomes;
    ParseNucmerCmdRoundTrip(cmds[i * |genomes| + j], job);
    DeltaNameRoundTrip(outf, genomes[i], genomes[j]);
  }
}
