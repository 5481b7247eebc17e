/** The virtual-screening driver: for each dataset, split the actives and
    inactives SDF files into one file per molecule, list them in an index,
    run one `unidock` screen per search mode, and write one CSV row per
    dataset and mode. */
module VirtualScreening {
  import opened Wrappers
  import opened Text
  import opened RunConfig

  /** The options every screen starts from; note one pose per ligand. */
  const DEFAULT_UNIDOCK_ARGS: ArgList :=
    [("scoring", "vina"), ("num_modes", "1"), ("verbosity", "2"),
     ("refine_step", "3"), ("seed", "181129")]

  /** The record separator of an SDF file. */
  const SEP: string := "$$$$\n"

  /** The effective options: `copy.deepcopy(DEFAULT_UNIDOCK_ARGS)` updated
      with the configuration's `unidock_args`. */
  function ScreeningArgs(config: Config): ArgList
    requires WellTyped(config)
  {
    EffectiveArgs(DEFAULT_UNIDOCK_ARGS, config)
  }

  /** The five defaults keep their places, configured values win, further
      configured options follow in their order, and no option is listed twice. */
  lemma ScreeningArgsSpec(config: Config)
    requires WellTyped(config)
    ensures var args := ScreeningArgs(config);
            && IsDict(args)
            && KeysOf(args) == ["scoring", "num_modes", "verbosity", "refine_step", "seed"]
                               + NewKeys(OverridesOf(config), KeysOf(DEFAULT_UNIDOCK_ARGS))
            && (forall q :: q in KeysOf(OverridesOf(config)) ==> Get(args, q) == Get(OverridesOf(config), q))
            && ("num_modes" !in KeysOf(OverridesOf(config)) ==> Get(args, "num_modes") == Some("1"))
  {
    EffectiveArgsSpec(DEFAULT_UNIDOCK_ARGS, config);
    assert KeysOf(DEFAULT_UNIDOCK_ARGS) == ["scoring", "num_modes", "verbosity", "refine_step", "seed"];
  }

  /* ---------------------------------------------------------------------
     Which datasets are screened
     --------------------------------------------------------------------- */

  /** `[d for d in ds if d in names]`. */
  function KeepListed(ds: seq<string>, names: seq<string>): seq<string> {
    if ds == [] then []
    else (if ds[0] in names then [ds[0]] else []) + KeepListed(ds[1..], names)
  }

  /** `a` is `b` with some elements deleted. */
  predicate Subsequence(a: seq<string>, b: seq<string>)
    decreases |b|
  {
    if a == [] then true
    else if b == [] then false
    else if a[0] == b[0] then Subsequence(a[1..], b[1..])
    else Subsequence(a, b[1..])
  }

  /** The listed datasets on disk, in their order on disk. */
  lemma {:induction false} KeepListedSpec(ds: seq<string>, names: seq<string>)
    ensures forall d :: d in KeepListed(ds, names) <==> d in ds && d in names
    ensures Subsequence(KeepListed(ds, names), ds)
  {
    if ds != [] {
      KeepListedSpec(ds[1..], names);
      var rest := KeepListed(ds[1..], names);
      assert ds == [ds[0]] + ds[1..];
      if ds[0] in names {
        assert ([ds[0]] + rest)[1..] == rest;
      } else {
        assert KeepListed(ds, names) == rest;
        SubsequenceOfTail(rest, ds);
      }
    }
  }

  /** A subsequence of the tail of `b` is a subsequence of `b`. */
  lemma {:induction false} SubsequenceOfTail(a: seq<string>, b: seq<string>)
    requires b != [] && Subsequence(a, b[1..])
    ensures Subsequence(a, b)
    decreases |b|, 0
  {
    if a != [] && a[0] == b[0] {
      SubsequenceDropHead(a, b[1..]);
    }
  }

  /** Without its first element a subsequence stays a subsequence. */
  lemma {:induction false} SubsequenceDropHead(a: seq<string>, t: seq<string>)
    requires a != [] && Subsequence(a, t)
    ensures Subsequence(a[1..], t)
    decreases |t|, 1
  {
    if a[0] == t[0] {
      SubsequenceOfTail(a[1..], t);
    } else {
      SubsequenceDropHead(a, t[1..]);
      SubsequenceOfTail(a[1..], t);
    }
  }

  /** `if config.get("dataset_names"): datasets = [d for d in datasets if d in
      config.get("dataset_names", [])]`: an absent or empty list keeps every
      dataset found on disk. */
  function SelectDatasets(onDisk: seq<string>, config: Config): (r: seq<string>)
    requires WellTyped(config)
    ensures "dataset_names" !in config || config["dataset_names"].names == [] ==> r == onDisk
  {
    if "dataset_names" in config && config["dataset_names"].names != [] then
      KeepListed(onDisk, config["dataset_names"].names)
    else onDisk
  }

  /** A non-empty list keeps exactly the listed datasets found on disk, in
      their order on disk; names not found on disk are ignored. */
  lemma SelectDatasetsSpec(onDisk: seq<string>, config: Config)
    requires WellTyped(config)
    requires "dataset_names" in config && config["dataset_names"].names != []
    ensures var r := SelectDatasets(onDisk, config);
            && (forall d :: d in r <==> d in onDisk && d in config["dataset_names"].names)
            && Subsequence(r, onDisk)
  {
    KeepListedSpec(onDisk, config["dataset_names"].names);
  }

  /* ---------------------------------------------------------------------
     Staging the ligands
     --------------------------------------------------------------------- */

  /** Which input file a molecule comes from. */
  datatype Group = Active | Inactive

  /** A staged ligand: the file `{temp_dir}/{group}-{index}.sdf` and the
      record written into it. */
  datatype Ligand = Ligand(group: Group, index: nat, record: string)

  /** The ligands staged from the pieces of one input file: one per
      non-empty piece, numbered by the piece's position, holding the piece
      with the separator put back. */
  function Staged(group: Group, frags: seq<string>): seq<Ligand>
    decreases |frags|
  {
    if frags == [] then []
    else
      var i := |frags| - 1;
      Staged(group, frags[..i]) + (if frags[i] != "" then [Ligand(group, i, frags[i] + SEP)] else [])
  }

  /** The positions of the non-empty pieces. */
  function NonEmptyPositions(frags: seq<string>): set<nat> {
    set i: nat | i < |frags| && frags[i] != ""
  }

  /** `l` comes from a non-empty piece of `frags` and holds it followed by
      the separator. */
  predicate WellStaged(group: Group, frags: seq<string>, l: Ligand) {
    l.group == group && l.index < |frags| && frags[l.index] != "" && l.record == frags[l.index] + SEP
  }

  /** Every staged ligand comes from a non-empty piece and holds it followed
      by the separator, and the indices increase. */
  lemma {:induction false} StagedEntries(group: Group, frags: seq<string>)
    ensures forall k :: 0 <= k < |Staged(group, frags)| ==> WellStaged(group, frags, Staged(group, frags)[k])
    ensures forall k, l :: 0 <= k < l < |Staged(group, frags)| ==>
              Staged(group, frags)[k].index < Staged(group, frags)[l].index
    decreases |frags|
  {
    if frags != [] {
      var i := |frags| - 1;
      var init := frags[..i];
      StagedEntries(group, init);
      var ls := Staged(group, frags);
      var before := Staged(group, init);
      var last := if frags[i] != "" then [Ligand(group, i, frags[i] + SEP)] else [];
      assert ls == before + last;
      forall k | 0 <= k < |ls|
        ensures WellStaged(group, frags, ls[k])
      {
        if k < |before| {
          assert ls[k] == before[k] && WellStaged(group, init, before[k]);
          assert frags[before[k].index] == init[before[k].index];
        }
      }
      forall k, l | 0 <= k < l < |ls|
        ensures ls[k].index < ls[l].index
      {
        assert ls[k] == before[k];
      }
    }
  }

  /** Some ligand of `ls` was staged from piece `i`. */
  predicate HasIndex(ls: seq<Ligand>, i: int) {
    exists k :: 0 <= k < |ls| && ls[k].index == i
  }

  /** Every non-empty piece is staged. */
  lemma {:induction false} StagedComplete(group: Group, frags: seq<string>)
    ensures forall i :: 0 <= i < |frags| && frags[i] != "" ==> HasIndex(Staged(group, frags), i)
    decreases |frags|
  {
    if frags != [] {
      var n := |frags| - 1;
      var init := frags[..n];
      StagedComplete(group, init);
      var ls := Staged(group, frags);
      var before := Staged(group, init);
      var last := if frags[n] != "" then [Ligand(group, n, frags[n] + SEP)] else [];
      assert ls == before + last;
      forall j | 0 <= j < |frags| && frags[j] != ""
        ensures HasIndex(ls, j)
      {
        if j < n {
          assert init[j] == frags[j] && HasIndex(before, j);
          var k :| 0 <= k < |before| && before[k].index == j;
          assert ls[k] == before[k];
        } else {
          assert ls[|before|].index == n;
        }
      }
    }
  }

  /** There are as many ligands as non-empty pieces. */
  lemma {:induction false} StagedCount(group: Group, frags: seq<string>)
    ensures |Staged(group, frags)| == |NonEmptyPositions(frags)|
    decreases |frags|
  {
    if frags != [] {
      StagedCount(group, frags[..|frags| - 1]);
      NonEmptyPositionsSnoc(frags);
    }
  }

  /** The last piece adds its position to the non-empty ones exactly when
      it is non-empty. */
  lemma NonEmptyPositionsSnoc(frags: seq<string>)
    requires frags != []
    ensures var i := |frags| - 1;
            |NonEmptyPositions(frags)| ==
            |NonEmptyPositions(frags[..i])| + (if frags[i] != "" then 1 else 0)
  {
    var i := |frags| - 1;
    var before := NonEmptyPositions(frags[..i]);
    assert i !in before;
    if frags[i] != "" {
      assert NonEmptyPositions(frags) == before + {i};
    } else {
      assert NonEmptyPositions(frags) == before;
    }
  }

  /** Pieces that are all non-empty are staged one for one, in order. */
  lemma {:induction false} StagedAllKept(group: Group, ws: seq<string>)
    requires forall k :: 0 <= k < |ws| ==> ws[k] != ""
    ensures |Staged(group, ws)| == |ws|
    ensures forall k :: 0 <= k < |ws| ==> Staged(group, ws)[k] == Ligand(group, k, ws[k] + SEP)
    decreases |ws|
  {
    if ws != [] {
      StagedAllKept(group, ws[..|ws| - 1]);
    }
  }

  /** The records of the ligands, one after another. */
  function Contents(ls: seq<Ligand>): string {
    if ls == [] then "" else ls[0].record + Contents(ls[1..])
  }

  /** Records that are the pieces each followed by the separator put back
      together are the pieces joined by it, with a final separator. */
  lemma {:induction false} ContentsOfRecords(ls: seq<Ligand>, ws: seq<string>)
    requires |ls| == |ws|
    requires forall k :: 0 <= k < |ls| ==> ls[k].record == ws[k] + SEP
    ensures Contents(ls) == Join(ws + [""], SEP)
  {
    if ls != [] {
      ContentsOfRecords(ls[1..], ws[1..]);
      assert (ws + [""])[1..] == ws[1..] + [""];
    }
  }

  /** A separator-terminated SDF text without empty records is exactly the
      staged records put back together: splitting loses nothing and adds
      nothing. */
  lemma StagedRoundTrip(group: Group, content: string)
    requires EndsWith(content, SEP)
    requires forall i :: 0 <= i < |Split(content, SEP)| - 1 ==> Split(content, SEP)[i] != ""
    ensures Contents(Staged(group, Split(content, SEP))) == content
  {
    var frags := Split(content, SEP);
    SplitEndsEmpty(content, SEP);
    var ws := frags[..|frags| - 1];
    assert frags == ws + [""];
    assert Staged(group, frags) == Staged(group, ws);
    StagedAllKept(group, ws);
    ContentsOfRecords(Staged(group, ws), ws);
    SplitJoin(content, SEP);
  }

  /** Each record holds the separator exactly once, at its end. */
  lemma RecordHasOneSeparator(group: Group, content: string)
    ensures var ls := Staged(group, Split(content, SEP));
            forall k :: 0 <= k < |ls| ==>
              EndsWith(ls[k].record, SEP) && IndexOf(ls[k].record, SEP) == Some(|ls[k].record| - |SEP|)
  {
    var frags := Split(content, SEP);
    var ls := Staged(group, frags);
    StagedEntries(group, frags);
    SplitPiecesFree(content, SEP);
    forall k | 0 <= k < |ls|
      ensures EndsWith(ls[k].record, SEP) && IndexOf(ls[k].record, SEP) == Some(|ls[k].record| - |SEP|)
    {
      var f := frags[ls[k].index];
      FirstOccurrence(f, SEP, "");
      assert f + SEP + "" == ls[k].record;
      assert ls[k].record[|f|..] == SEP;
    }
  }

  /** A blank record between two separators is skipped, and its position
      still counts towards the numbering of the files that follow. */
  lemma BlankRecordSkipped()
    ensures Staged(Active, ["A", "", "B"]) == [Ligand(Active, 0, "A" + SEP), Ligand(Active, 2, "B" + SEP)]
  {
    assert ["A", "", "B"][..2] == ["A", ""];
    assert ["A", ""][..1] == ["A"];
    assert ["A"][..0] == [];
  }

  /** The loop over the pieces of one input file, appending one ligand per
      non-empty piece to the ligand list. */
  method AppendRecords(ligands: seq<Ligand>, group: Group, content: string) returns (out: seq<Ligand>)
    ensures out == ligands + Staged(group, Split(content, SEP))
  {
    var frags := Split(content, SEP);
    out := ligands;
    var idx := 0;
    while idx < |frags|
      invariant 0 <= idx <= |frags|
      invariant out == ligands + Staged(group, frags[..idx])
    {
      assert frags[..idx + 1][..idx] == frags[..idx];
      if frags[idx] != "" {
        out := out + [Ligand(group, idx, frags[idx] + SEP)];
      }
      idx := idx + 1;
    }
    assert frags[..idx] == frags;
  }

  /** The actives are staged, then the inactives; `total_num` is the length
      of the ligand list. */
  method StageLigands(actives: string, inactives: string) returns (ligands: seq<Ligand>, totalNum: nat)
    ensures ligands == Staged(Active, Split(actives, SEP)) + Staged(Inactive, Split(inactives, SEP))
    ensures totalNum == |ligands|
  {
    ligands := AppendRecords([], Active, actives);
    ligands := AppendRecords(ligands, Inactive, inactives);
    totalNum := |ligands|;
  }

  /** Every active comes before every inactive, and `total_num` counts the
      non-empty records of both files. */
  lemma StagedLigandsSpec(actives: string, inactives: string)
    ensures var a, b := Staged(Active, Split(actives, SEP)), Staged(Inactive, Split(inactives, SEP));
            && (forall k :: 0 <= k < |a + b| ==> ((a + b)[k].group == Active <==> k < |a|))
            && |a + b| == |NonEmptyPositions(Split(actives, SEP))| + |NonEmptyPositions(Split(inactives, SEP))|
  {
    StagedEntries(Active, Split(actives, SEP));
    StagedEntries(Inactive, Split(inactives, SEP));
    StagedCount(Active, Split(actives, SEP));
    StagedCount(Inactive, Split(inactives, SEP));
  }

  /* ---------------------------------------------------------------------
     The screening command
     --------------------------------------------------------------------- */

  /** The words of the command f-string, each followed by one space. */
  function CommandPieces(receptor: string, ligandIndex: string, pocket: Pocket, fmt: Format,
                         outdir: string, mode: string): (pieces: seq<string>)
    ensures |pieces| == 22 && pieces[2] == receptor && pieces[4] == ligandIndex
    ensures pieces[6] == fmt(pocket.centerX) && pieces[8] == fmt(pocket.centerY) && pieces[10] == fmt(pocket.centerZ)
    ensures pieces[12] == fmt(pocket.sizeX) && pieces[14] == fmt(pocket.sizeY) && pieces[16] == fmt(pocket.sizeZ)
    ensures pieces[18] == outdir && pieces[20] == mode
  {
    ["unidock", "--receptor", receptor, "--ligand_index", ligandIndex,
     "--center_x", fmt(pocket.centerX), "--center_y", fmt(pocket.centerY), "--center_z", fmt(pocket.centerZ),
     "--size_x", fmt(pocket.sizeX), "--size_y", fmt(pocket.sizeY), "--size_z", fmt(pocket.sizeZ),
     "--dir", outdir, "--search_mode", mode, "--keep_nonpolar_H"]
  }

  /** `cmd = cmd_line.split()` followed by one `f"--{k} {v}"` token per
      option: the option name and its value travel as a single argument. */
  method ScreeningCommand(receptor: string, ligandIndex: string, pocket: Pocket, fmt: Format,
                          outdir: string, mode: string, args: ArgList) returns (cmd: seq<string>)
    ensures var base := Words(SpaceJoined(CommandPieces(receptor, ligandIndex, pocket, fmt, outdir, mode)));
            && |cmd| == |base| + |args|
            && cmd[..|base|] == base
            && forall i :: 0 <= i < |args| ==> cmd[|base| + i] == "--" + args[i].0 + " " + args[i].1
  {
    cmd := Words(SpaceJoined(CommandPieces(receptor, ligandIndex, pocket, fmt, outdir, mode)));
    ghost var base := cmd;
    var i := 0;
    while i < |args|
      invariant 0 <= i <= |args|
      invariant |cmd| == |base| + i && cmd[..|base|] == base
      invariant forall j :: 0 <= j < i ==> cmd[|base| + j] == "--" + args[j].0 + " " + args[j].1
    {
      cmd := cmd + ["--" + args[i].0 + " " + args[i].1];
      i := i + 1;
    }
  }

  /** When no path, mode or formatted number holds whitespace, splitting the
      f-string gives back its 22 words in order. */
  lemma CommandSplitsIntoPieces(receptor: string, ligandIndex: string, pocket: Pocket, fmt: Format,
                                outdir: string, mode: string)
    requires var pieces := CommandPieces(receptor, ligandIndex, pocket, fmt, outdir, mode);
             forall k :: 0 <= k < 22 ==> IsWord(pieces[k])
    ensures Words(SpaceJoined(CommandPieces(receptor, ligandIndex, pocket, fmt, outdir, mode))) ==
            CommandPieces(receptor, ligandIndex, pocket, fmt, outdir, mode)
  {
    WordsOfSpaceJoined(CommandPieces(receptor, ligandIndex, pocket, fmt, outdir, mode));
  }

  /** A path holding a space is cut in two by the split, and the receptor
      argument then no longer follows `--receptor` whole. */
  lemma SpacedPathIsCut()
    ensures Words(SpaceJoined(["--receptor", "my dir"])) == ["--receptor", "my", "dir"]
  {
    var ws := ["--receptor", "my", "dir"];
    assert SpaceJoined(["--receptor", "my dir"]) == SpaceJoined(ws);
    WordsOfSpaceJoined(ws);
  }

  /* ---------------------------------------------------------------------
     The CSV rows
     --------------------------------------------------------------------- */

  /** What one screen ends with: an exception, or the run's wall-clock time
      and the number of `*_out.sdf` result files it left in its directory. */
  datatype ScreenOutcome = ScreenRaised | Screened(costTime: real, successNum: nat)

  /** `dataset,search_mode,total_num,success_num,cost_time,cost_time_per_ligand`. */
  datatype ScreenRow = ScreenRow(dataset: string, mode: string, totalNum: nat,
                                 successNum: nat, costTime: real, timePerLigand: real)

  /** The row for one dataset and mode: a finished screen writes its time
      and the time per staged ligand; an exception, including the division
      by an empty ligand list, writes zeros. */
  function RowFor(dataset: string, mode: string, totalNum: nat, o: ScreenOutcome): (row: ScreenRow)
    ensures row.dataset == dataset && row.mode == mode && row.totalNum == totalNum
    ensures o.Screened? && totalNum > 0 ==>
              && row.successNum == o.successNum && row.costTime == o.costTime
              && row.timePerLigand * totalNum as real == o.costTime
    ensures o.ScreenRaised? || totalNum == 0 ==>
              row.successNum == 0 && row.costTime == 0.0 && row.timePerLigand == 0.0
  {
    if o.Screened? && totalNum > 0 then
      ScreenRow(dataset, mode, totalNum, o.successNum, o.costTime, o.costTime / totalNum as real)
    else
      ScreenRow(dataset, mode, totalNum, 0, 0.0, 0.0)
  }

  /** A non-negative time shared among one or more ligands gives each at
      most the whole. */
  lemma QuotientAtMost(c: real, n: real)
    requires c >= 0.0 && n >= 1.0
    ensures 0.0 <= c / n <= c
  {
    var q := c / n;
    assert q * n == c;
    assert c - q == q * (n - 1.0);
  }

  /** The loop over the search modes of one dataset, appending one row per
      mode to the CSV lines. */
  method ScreenDataset(dataset: string, modes: seq<string>, totalNum: nat,
                       outcome: string -> ScreenOutcome) returns (rows: seq<ScreenRow>)
    ensures |rows| == |modes|
    ensures forall i :: 0 <= i < |modes| ==> rows[i] == RowFor(dataset, modes[i], totalNum, outcome(modes[i]))
  {
    rows := [];
    var i := 0;
    while i < |modes|
      invariant 0 <= i <= |modes| && |rows| == i
      invariant forall j :: 0 <= j < i ==> rows[j] == RowFor(dataset, modes[j], totalNum, outcome(modes[j]))
    {
      var row := RowFor(dataset, modes[i], totalNum, outcome(modes[i]));
      rows := rows + [row];
      i := i + 1;
    }
  }

  /** The rows of a dataset name it, follow the modes in order, carry the
      dataset's ligand count, and never report more time per ligand than
      the whole screen took. */
  lemma ScreenRowsSpec(dataset: string, modes: seq<string>, totalNum: nat,
                       outcome: string -> ScreenOutcome, rows: seq<ScreenRow>)
    requires |rows| == |modes|
    requires forall i :: 0 <= i < |modes| ==> rows[i] == RowFor(dataset, modes[i], totalNum, outcome(modes[i]))
    requires forall m :: outcome(m).Screened? ==> outcome(m).costTime >= 0.0
    ensures forall i :: 0 <= i < |rows| ==>
              && rows[i].dataset == dataset && rows[i].mode == modes[i] && rows[i].totalNum == totalNum
              && 0.0 <= rows[i].timePerLigand <= rows[i].costTime
  {
    forall i | 0 <= i < |rows|
      ensures 0.0 <= rows[i].timePerLigand <= rows[i].costTime
    {
      var o := outcome(modes[i]);
      if o.Screened? && totalNum > 0 {
        QuotientAtMost(o.costTime, totalNum as real);
      }
    }
  }
}
