/** The bookkeeping of the pose-accuracy benchmark (`test_molecular_docking.py`):
    the effective `unidock` options, the command of one docking case, the
    Top-1/Top-3/Top-10 success tests, the nested result map and the CSV
    rows the sweep fills in, and the success rate and average time it
    reports per dataset, search mode and round. Running `unidock`, timing
    it and computing RMSDs are inputs here. */
module MolecularDocking {
  import opened Wrappers
  import opened RunConfig

  const DEFAULT_UNIDOCK_ARGS: ArgList :=
    [("scoring", "vina"), ("num_modes", "10"), ("verbosity", "2"), ("refine_step", "3"), ("seed", "181129")]
  const DEFAULT_ROUND: int := 3
  /** A pose counts as correct below this RMSD (in angstrom). */
  const RMSD_THRESHOLD: real := 2.0

  // ---------------------------------------------------------------------------
  // Configuration

  /** `config.get("srarch_mode_list", ["fast", "balance", "detail"])`, key
      spelled as the driver spells it. */
  function SearchModesAsWritten(config: Config): seq<string>
    requires WellTyped(config)
  {
    GetNames(config, "srarch_mode_list", DEFAULT_SEARCH_MODES)
  }

  /** With the key spelled `srarch_mode_list`, a configuration that lists its
      modes under `search_mode_list` still runs all three default modes,
      where reading `search_mode_list` runs the modes it lists. */
  lemma MisspelledModeKeyIgnoresModes(config: Config)
    requires WellTyped(config) && "srarch_mode_list" !in config
    ensures SearchModesAsWritten(config) == ["fast", "balance", "detail"]
    ensures "search_mode_list" in config ==> SearchModes(config) == config["search_mode_list"].names
  {
  }

  /** `config.get("round", 3)`. */
  function RoundCount(config: Config): int
    requires WellTyped(config)
  {
    if "round" in config then config["round"].count else DEFAULT_ROUND
  }

  /** The options every docking command carries. */
  function DockingArgs(config: Config): ArgList
    requires WellTyped(config)
  {
    EffectiveArgs(DEFAULT_UNIDOCK_ARGS, config)
  }

  /** The docking options are the defaults overridden by `unidock_args`: the
      five default keys first and in their order, a configured value in place
      of its default, then the keys only the configuration names. */
  lemma DockingArgsSpec(config: Config)
    requires WellTyped(config)
    ensures KeysOf(DockingArgs(config)) ==
            ["scoring", "num_modes", "verbosity", "refine_step", "seed"] +
            NewKeys(OverridesOf(config), KeysOf(DEFAULT_UNIDOCK_ARGS))
    ensures IsDict(DockingArgs(config))
    ensures forall q :: Get(DockingArgs(config), q) ==
                          (if q in KeysOf(OverridesOf(config)) then Get(OverridesOf(config), q)
                           else Get(DEFAULT_UNIDOCK_ARGS, q))
  {
    assert KeysOf(DEFAULT_UNIDOCK_ARGS) == ["scoring", "num_modes", "verbosity", "refine_step", "seed"];
    EffectiveArgsSpec(DEFAULT_UNIDOCK_ARGS, config);
  }

  // ---------------------------------------------------------------------------
  // The docking command of one case

  /** The flags before the options, in the order the command lists them. */
  function FixedFlags(receptor: string, ligand: string, pocket: Pocket, fmt: Format,
                      outdir: string, mode: string): (flags: seq<string>)
    ensures |flags| == 22 && flags[2] == receptor && flags[4] == ligand
    ensures flags[6] == fmt(pocket.centerX) && flags[8] == fmt(pocket.centerY) && flags[10] == fmt(pocket.centerZ)
    ensures flags[12] == fmt(pocket.sizeX) && flags[14] == fmt(pocket.sizeY) && flags[16] == fmt(pocket.sizeZ)
    ensures flags[18] == outdir && flags[20] == mode
  {
    [ "unidock",
      "--receptor", receptor,
      "--gpu_batch", ligand,
      "--center_x", fmt(pocket.centerX),
      "--center_y", fmt(pocket.centerY),
      "--center_z", fmt(pocket.centerZ),
      "--size_x", fmt(pocket.sizeX),
      "--size_y", fmt(pocket.sizeY),
      "--size_z", fmt(pocket.sizeZ),
      "--dir", outdir,
      "--search_mode", mode,
      "--keep_nonpolar_H" ]
  }

  /** The argument list passed to `unidock`: the fixed flags, then for each
      option, in the dict's order, the two tokens `--<key>` and `<value>`. */
  method DockingCommand(receptor: string, ligand: string, pocket: Pocket, fmt: Format,
                        outdir: string, mode: string, args: ArgList) returns (cmd: seq<string>)
    ensures |cmd| == 22 + 2 * |args|
    ensures cmd[..22] == FixedFlags(receptor, ligand, pocket, fmt, outdir, mode)
    ensures forall i :: 0 <= i < |args| ==> cmd[22 + 2 * i] == "--" + args[i].0 && cmd[23 + 2 * i] == args[i].1
  {
    cmd := FixedFlags(receptor, ligand, pocket, fmt, outdir, mode);
    var i := 0;
    while i < |args|
      invariant 0 <= i <= |args|
      invariant |cmd| == 22 + 2 * i
      invariant cmd[..22] == FixedFlags(receptor, ligand, pocket, fmt, outdir, mode)
      invariant forall j :: 0 <= j < i ==> cmd[22 + 2 * j] == "--" + args[j].0 && cmd[23 + 2 * j] == args[j].1
    {
      var (k, v) := args[i];
      cmd := cmd + ["--" + k, v];
      i := i + 1;
    }
  }

  // ---------------------------------------------------------------------------
  // Success tests on the RMSDs of the poses, best pose first

  /** Some pose in `rmsd` is below the threshold. */
  predicate AnyBelow(rmsd: seq<real>) {
    exists i :: 0 <= i < |rmsd| && rmsd[i] < RMSD_THRESHOLD
  }

  /** The slice `rmsd[:n]`. */
  function Take(rmsd: seq<real>, n: nat): seq<real> {
    if n <= |rmsd| then rmsd[..n] else rmsd
  }

  /** `rmsd[0] < 2.0`. */
  predicate Top1Success(rmsd: seq<real>)
    requires |rmsd| > 0
  {
    rmsd[0] < RMSD_THRESHOLD
  }

  /** `any(r < 2.0 for r in rmsd[:3])`. */
  predicate Top3Success(rmsd: seq<real>) {
    AnyBelow(Take(rmsd, 3))
  }

  /** `any(r < 2.0 for r in rmsd)`: over every pose written, however many. */
  predicate Top10Success(rmsd: seq<real>) {
    AnyBelow(rmsd)
  }

  /** Top-3 success means one of the first three poses is correct, and the
      three tests form a ladder: Top-1 implies Top-3 implies Top-10. */
  lemma SuccessLadder(rmsd: seq<real>)
    requires |rmsd| > 0
    ensures Top3Success(rmsd) <==> exists i :: 0 <= i < 3 && i < |rmsd| && rmsd[i] < RMSD_THRESHOLD
    ensures Top1Success(rmsd) ==> Top3Success(rmsd)
    ensures Top3Success(rmsd) ==> Top10Success(rmsd)
  {
    var t := Take(rmsd, 3);
    assert forall i :: 0 <= i < |t| ==> t[i] == rmsd[i];
    assert |t| > 0;
    if Top3Success(rmsd) {
      var i :| 0 <= i < |t| && t[i] < RMSD_THRESHOLD;
      assert rmsd[i] < RMSD_THRESHOLD;
    }
  }

  // ---------------------------------------------------------------------------
  // One case: the entry of the result map and the CSV row

  /** `{"cost_time": ..., "status": ..., "RMSD": ...}`; `None` is JSON null. */
  datatype Entry = Entry(costTime: Option<real>, status: int, rmsd: Option<seq<real>>)

  /** The entry the `except` branch records. */
  const FAILED: Entry := Entry(None, -1, None)

  /** What running a case produced: an exception before the results are
      saved (the grid file, the subprocess call or `calc_rmsd` raised), or
      the wall-clock time, the return code and the RMSD of each pose. */
  datatype CaseOutcome =
    | Raised
    | Ran(costTime: real, returnCode: int, rmsd: seq<real>)

  /** A line of `results.csv`. `UnterminatedRow` is the first half of a row
      written before `rmsd[0]` raised, with no line end. */
  datatype CsvRow =
    | CaseRow(dataset: string, pdbid: string, mode: string, round: int, costTime: real,
              status: int, top1Rmsd: real, top1: bool, top3: bool, top10: bool)
    | UnterminatedRow(dataset: string, pdbid: string, mode: string, round: int, costTime: real, status: int)

  /** The entry recorded for a case. An empty RMSD list makes `rmsd[0]`
      raise after the entry was written, and the `except` branch replaces it
      with the failure entry. */
  function EntryFor(o: CaseOutcome): (e: Entry)
    ensures e == FAILED <==> o.Raised? || o.rmsd == []
    ensures e != FAILED ==> e == Entry(Some(o.costTime), o.returnCode, Some(o.rmsd))
    ensures e.rmsd.Some? ==> |e.rmsd.value| > 0 && e.costTime.Some?
  {
    match o
    case Raised => FAILED
    case Ran(t, code, rmsd) => if rmsd == [] then FAILED else Entry(Some(t), code, Some(rmsd))
  }

  /** The CSV row of a case whose RMSD list is not empty; a non-zero return
      code does not stop the row. */
  function SuccessRow(dataset: string, pdbid: string, mode: string, round: int,
                      t: real, code: int, rmsd: seq<real>): CsvRow
    requires |rmsd| > 0
  {
    CaseRow(dataset, pdbid, mode, round, t, code, rmsd[0],
            Top1Success(rmsd), Top3Success(rmsd), Top10Success(rmsd))
  }

  /** What `results_csv` gains from a case, as the driver is written: the
      first `+=` has already run when `rmsd[0]` raises on an empty list. */
  function CaseRowsAsWritten(dataset: string, pdbid: string, mode: string, round: int,
                             o: CaseOutcome): seq<CsvRow>
  {
    match o
    case Raised => []
    case Ran(t, code, rmsd) =>
      if rmsd == [] then [UnterminatedRow(dataset, pdbid, mode, round, t, code)]
      else [SuccessRow(dataset, pdbid, mode, round, t, code, rmsd)]
  }

  /** A case whose RMSD list is empty is recorded as failed and still leaves
      half a row, without a line end, in `results.csv`: the next row is
      written onto the same line. */
  lemma EmptyRmsdLeavesHalfRow(dataset: string, pdbid: string, mode: string, round: int, t: real, code: int)
    ensures EntryFor(Ran(t, code, [])) == FAILED
    ensures CaseRowsAsWritten(dataset, pdbid, mode, round, Ran(t, code, [])) ==
            [UnterminatedRow(dataset, pdbid, mode, round, t, code)]
  {
  }

  /** What `results_csv` gains from a case when the whole row is formatted
      before it is appended: a row exactly for the cases not recorded as
      failed. */
  function CaseRows(dataset: string, pdbid: string, mode: string, round: int, o: CaseOutcome): (rows: seq<CsvRow>)
    ensures |rows| == if EntryFor(o) == FAILED then 0 else 1
  {
    match o
    case Raised => []
    case Ran(t, code, rmsd) =>
      if rmsd == [] then [] else [SuccessRow(dataset, pdbid, mode, round, t, code, rmsd)]
  }

  /** A failed case adds no row; any other case adds one whole row that
      agrees with its entry: the time, the return code, the first pose's
      RMSD and the three success tests on the RMSD list. */
  lemma CaseRowMatchesEntry(dataset: string, pdbid: string, mode: string, round: int, o: CaseOutcome)
    ensures var e := EntryFor(o);
            var rows := CaseRows(dataset, pdbid, mode, round, o);
            && (e == FAILED <==> rows == [])
            && forall row :: row in rows ==>
                 && row.CaseRow? && e.rmsd.Some?
                 && row == SuccessRow(dataset, pdbid, mode, round, e.costTime.value, e.status, e.rmsd.value)
  {
  }

  // ---------------------------------------------------------------------------
  // Rows the sweep of one dataset appends, in loop order

  /** The rows of one round of one mode over `pdbids`. */
  function PdbRows(d: string, pdbids: seq<string>, m: string, r: int,
                   outcome: (string, string, int) -> CaseOutcome): seq<CsvRow>
    decreases |pdbids|
  {
    if pdbids == [] then []
    else
      var p := pdbids[|pdbids| - 1];
      PdbRows(d, pdbids[..|pdbids| - 1], m, r, outcome) + CaseRows(d, p, m, r, outcome(p, m, r))
  }

  /** The rows of the first `rounds` rounds of one mode. */
  function RoundRows(d: string, pdbids: seq<string>, m: string, rounds: int,
                     outcome: (string, string, int) -> CaseOutcome): seq<CsvRow>
    decreases rounds
  {
    if rounds <= 0 then []
    else RoundRows(d, pdbids, m, rounds - 1, outcome) + PdbRows(d, pdbids, m, rounds - 1, outcome)
  }

  /** The rows of every mode of `modes`, in order. */
  function ModeRows(d: string, pdbids: seq<string>, modes: seq<string>, rounds: int,
                    outcome: (string, string, int) -> CaseOutcome): seq<CsvRow>
    decreases |modes|
  {
    if modes == [] then []
    else ModeRows(d, pdbids, modes[..|modes| - 1], rounds, outcome) + RoundRows(d, pdbids, modes[|modes| - 1], rounds, outcome)
  }

  /** The case `(p, m, r)` was not recorded as failed. */
  predicate Succeeded(outcome: (string, string, int) -> CaseOutcome, p: string, m: string, r: int) {
    EntryFor(outcome(p, m, r)) != FAILED
  }

  /** Every row a dataset's sweep appends belongs to one of its cases that
      succeeded. */
  predicate RowsOfSuccesses(rows: seq<CsvRow>, d: string, pdbids: seq<string>, modes: seq<string>,
                            rounds: int, outcome: (string, string, int) -> CaseOutcome) {
    forall row :: row in rows ==>
      && row.CaseRow? && row.dataset == d && row.pdbid in pdbids && row.mode in modes
      && 0 <= row.round < rounds && Succeeded(outcome, row.pdbid, row.mode, row.round)
  }

  /** `row` is the row of a succeeded case of dataset `d`, mode `m`, one of
      `pdbids` and a round below `rounds`. */
  predicate ModeRowOk(row: CsvRow, d: string, pdbids: seq<string>, m: string, rounds: int,
                      outcome: (string, string, int) -> CaseOutcome) {
    && row.CaseRow? && row.dataset == d && row.pdbid in pdbids && row.mode == m
    && 0 <= row.round < rounds && Succeeded(outcome, row.pdbid, m, row.round)
  }

  /** Every row of one round belongs to a succeeded case of that round. */
  lemma {:induction false} PdbRowsOfSuccesses(d: string, pdbids: seq<string>, m: string, r: int,
                                              outcome: (string, string, int) -> CaseOutcome)
    ensures forall row :: row in PdbRows(d, pdbids, m, r, outcome) ==>
              && row.CaseRow? && row.dataset == d && row.pdbid in pdbids && row.mode == m
              && row.round == r && Succeeded(outcome, row.pdbid, m, r)
    ensures (forall p :: p in pdbids ==> !Succeeded(outcome, p, m, r)) ==> PdbRows(d, pdbids, m, r, outcome) == []
    decreases |pdbids|
  {
    if pdbids != [] {
      var init := pdbids[..|pdbids| - 1];
      PdbRowsOfSuccesses(d, init, m, r, outcome);
      assert forall p :: p in init ==> p in pdbids;
    }
  }

  /** Every row of `rows` satisfies `ModeRowOk`. */
  predicate ModeRowsOk(rows: seq<CsvRow>, d: string, pdbids: seq<string>, m: string, rounds: int,
                       outcome: (string, string, int) -> CaseOutcome) {
    forall row :: row in rows ==> ModeRowOk(row, d, pdbids, m, rounds, outcome)
  }

  /** Two lists of good rows make one. */
  lemma ModeRowsOkConcat(a: seq<CsvRow>, b: seq<CsvRow>, d: string, pdbids: seq<string>, m: string, rounds: int,
                         outcome: (string, string, int) -> CaseOutcome)
    requires ModeRowsOk(a, d, pdbids, m, rounds, outcome) && ModeRowsOk(b, d, pdbids, m, rounds, outcome)
    ensures ModeRowsOk(a + b, d, pdbids, m, rounds, outcome)
  {
    forall row | row in a + b
      ensures ModeRowOk(row, d, pdbids, m, rounds, outcome)
    {
      if row !in a {
        assert row in b;
      }
    }
  }

  /** The rows of round `r` are good rows of the first `r + 1` rounds. */
  lemma PdbRowsOk(d: string, pdbids: seq<string>, m: string, r: int,
                  outcome: (string, string, int) -> CaseOutcome)
    requires r >= 0
    ensures ModeRowsOk(PdbRows(d, pdbids, m, r, outcome), d, pdbids, m, r + 1, outcome)
  {
    PdbRowsOfSuccesses(d, pdbids, m, r, outcome);
    forall row | row in PdbRows(d, pdbids, m, r, outcome)
      ensures ModeRowOk(row, d, pdbids, m, r + 1, outcome)
    {
      assert row.round == r;
    }
  }

  /** Every row of the first `rounds` rounds of one mode belongs to a
      succeeded case of one of those rounds. */
  lemma {:induction false} RoundRowsOk(d: string, pdbids: seq<string>, m: string, rounds: int,
                                       outcome: (string, string, int) -> CaseOutcome)
    ensures ModeRowsOk(RoundRows(d, pdbids, m, rounds, outcome), d, pdbids, m, rounds, outcome)
    decreases rounds
  {
    if rounds > 0 {
      var before := RoundRows(d, pdbids, m, rounds - 1, outcome);
      var last := PdbRows(d, pdbids, m, rounds - 1, outcome);
      assert RoundRows(d, pdbids, m, rounds, outcome) == before + last;
      RoundRowsOk(d, pdbids, m, rounds - 1, outcome);
      forall row | row in before
        ensures ModeRowOk(row, d, pdbids, m, rounds, outcome)
      {
        assert ModeRowOk(row, d, pdbids, m, rounds - 1, outcome);
      }
      PdbRowsOk(d, pdbids, m, rounds - 1, outcome);
      ModeRowsOkConcat(before, last, d, pdbids, m, rounds, outcome);
    }
  }

  /** Every row of one mode's rounds belongs to a succeeded case; a mode
      none of whose cases succeeded writes no row. */
  lemma RoundRowsOfSuccesses(d: string, pdbids: seq<string>, m: string, rounds: int,
                             outcome: (string, string, int) -> CaseOutcome)
    ensures ModeRowsOk(RoundRows(d, pdbids, m, rounds, outcome), d, pdbids, m, rounds, outcome)
    ensures (forall p, r :: p in pdbids && 0 <= r < rounds ==> !Succeeded(outcome, p, m, r)) ==>
              RoundRows(d, pdbids, m, rounds, outcome) == []
  {
    RoundRowsOk(d, pdbids, m, rounds, outcome);
    // A non-empty list starts with the row of a case that succeeded.
    assert RoundRows(d, pdbids, m, rounds, outcome) != [] ==>
             ModeRowOk(RoundRows(d, pdbids, m, rounds, outcome)[0], d, pdbids, m, rounds, outcome);
  }

  /** Every row of a dataset's sweep is the row of one of its succeeded cases:
      a failed case writes nothing to `results.csv`. */
  lemma {:induction false} ModeRowsOfSuccesses(d: string, pdbids: seq<string>, modes: seq<string>, rounds: int,
                                               outcome: (string, string, int) -> CaseOutcome)
    ensures RowsOfSuccesses(ModeRows(d, pdbids, modes, rounds, outcome), d, pdbids, modes, rounds, outcome)
    ensures (forall p, m, r :: p in pdbids && m in modes && 0 <= r < rounds ==> !Succeeded(outcome, p, m, r)) ==>
              ModeRows(d, pdbids, modes, rounds, outcome) == []
    decreases |modes|
  {
    if modes != [] {
      var init := modes[..|modes| - 1];
      ModeRowsOfSuccesses(d, pdbids, init, rounds, outcome);
      RoundRowsOfSuccesses(d, pdbids, modes[|modes| - 1], rounds, outcome);
      assert forall m :: m in init ==> m in modes;
    }
  }

  /** The rows of `modes[..i + 1]` are those of `modes[..i]` followed by
      those of mode `modes[i]`. */
  lemma ModeRowsStep(d: string, pdbids: seq<string>, modes: seq<string>, i: nat, rounds: int,
                     outcome: (string, string, int) -> CaseOutcome)
    requires i < |modes|
    ensures ModeRows(d, pdbids, modes[..i + 1], rounds, outcome) ==
            ModeRows(d, pdbids, modes[..i], rounds, outcome) + RoundRows(d, pdbids, modes[i], rounds, outcome)
  {
    assert modes[..i + 1][..i] == modes[..i];
  }

  // ---------------------------------------------------------------------------
  // The nested result map

  /** `results[dataset]`: structure, then search mode, then round. */
  type ByPdb = map<string, map<string, map<int, Entry>>>
  /** `results`: dataset first. */
  type Results = map<string, ByPdb>

  /** The entry at `[p][m][r]`, if there is one. */
  function At(b: ByPdb, p: string, m: string, r: int): Option<Entry> {
    if p in b && m in b[p] && r in b[p][m] then Some(b[p][m][r]) else None
  }

  /** Replacing the entry of dataset `d` leaves every other dataset alone. */
  lemma UpdateElsewhere(res: Results, d: string, b: ByPdb)
    ensures res[d := b] - {d} == res - {d}
  {
  }

  /** A map that agrees with `r0` away from `d` is `r0` with `d`'s entry
      replaced. */
  lemma UpdateRestores(res: Results, r0: Results, d: string)
    requires d in res && res - {d} == r0 - {d}
    ensures res == r0[d := res[d]]
  {
    forall k | k in res
      ensures k in r0[d := res[d]] && res[k] == r0[d := res[d]][k]
    {
      if k != d {
        assert k in res - {d};
      }
    }
    forall k | k in r0[d := res[d]]
      ensures k in res
    {
      if k != d {
        assert k in r0 - {d};
      }
    }
  }

  /** The two `.get(..., {})` lines and the assignment that record an entry
      (lines 96-98, and 107-109 for the failure entry). */
  function PutCase(b: ByPdb, p: string, m: string, r: int, e: Entry): ByPdb {
    var byMode := if p in b then b[p] else map[];
    var byRound := if m in byMode then byMode[m] else map[];
    b[p := byMode[m := byRound[r := e]]]
  }

  /** Recording a case sets its own entry and no other: other rounds and
      modes of the same structure and other structures keep theirs. */
  lemma PutCaseAt(b: ByPdb, p: string, m: string, r: int, e: Entry, p': string, m': string, r': int)
    ensures PutCase(b, p, m, r, e).Keys == b.Keys + {p}
    ensures At(PutCase(b, p, m, r, e), p', m', r') ==
            if p' == p && m' == m && r' == r then Some(e) else At(b, p', m', r')
  {
  }

  /** The dataset's map after recording one round of one mode over `pdbids`. */
  function FillPdbs(b: ByPdb, pdbids: seq<string>, m: string, r: int,
                    outcome: (string, string, int) -> CaseOutcome): ByPdb
    decreases |pdbids|
  {
    if pdbids == [] then b
    else
      var p := pdbids[|pdbids| - 1];
      PutCase(FillPdbs(b, pdbids[..|pdbids| - 1], m, r, outcome), p, m, r, EntryFor(outcome(p, m, r)))
  }

  /** ... after the first `rounds` rounds of one mode. */
  function FillRounds(b: ByPdb, pdbids: seq<string>, m: string, rounds: int,
                      outcome: (string, string, int) -> CaseOutcome): ByPdb
    decreases rounds
  {
    if rounds <= 0 then b
    else FillPdbs(FillRounds(b, pdbids, m, rounds - 1, outcome), pdbids, m, rounds - 1, outcome)
  }

  /** ... after every mode of `modes`. */
  function FillModes(b: ByPdb, pdbids: seq<string>, modes: seq<string>, rounds: int,
                     outcome: (string, string, int) -> CaseOutcome): ByPdb
    decreases |modes|
  {
    if modes == [] then b
    else FillRounds(FillModes(b, pdbids, modes[..|modes| - 1], rounds, outcome), pdbids, modes[|modes| - 1], rounds, outcome)
  }

  /** Sweeping `modes[..i + 1]` is sweeping `modes[..i]`, then mode `modes[i]`. */
  lemma FillModesStep(pdbids: seq<string>, modes: seq<string>, i: nat, rounds: int,
                      outcome: (string, string, int) -> CaseOutcome)
    requires i < |modes|
    ensures FillModes(map[], pdbids, modes[..i + 1], rounds, outcome) ==
            FillRounds(FillModes(map[], pdbids, modes[..i], rounds, outcome), pdbids, modes[i], rounds, outcome)
  {
    assert modes[..i + 1][..i] == modes[..i];
  }

  /** Round `round` comes after the rounds before it, in the map and in the
      CSV lines alike. */
  lemma RoundStep(d: string, b: ByPdb, pdbids: seq<string>, m: string, round: int,
                  outcome: (string, string, int) -> CaseOutcome)
    requires round >= 0
    ensures FillRounds(b, pdbids, m, round + 1, outcome) ==
            FillPdbs(FillRounds(b, pdbids, m, round, outcome), pdbids, m, round, outcome)
    ensures RoundRows(d, pdbids, m, round + 1, outcome) ==
            RoundRows(d, pdbids, m, round, outcome) + PdbRows(d, pdbids, m, round, outcome)
  {
  }

  /** `results[dataset]` once the dataset's sweep is over. */
  function SweptDataset(pdbids: seq<string>, modes: seq<string>, rounds: int,
                        outcome: (string, string, int) -> CaseOutcome): ByPdb
  {
    FillModes(map[], pdbids, modes, rounds, outcome)
  }

  lemma {:induction false} FillPdbsAt(b: ByPdb, pdbids: seq<string>, m: string, r: int,
                                      outcome: (string, string, int) -> CaseOutcome, p': string, m': string, r': int)
    ensures FillPdbs(b, pdbids, m, r, outcome).Keys == b.Keys + (set q | q in pdbids)
    ensures At(FillPdbs(b, pdbids, m, r, outcome), p', m', r') ==
            if p' in pdbids && m' == m && r' == r then Some(EntryFor(outcome(p', m, r))) else At(b, p', m', r')
    decreases |pdbids|
  {
    if pdbids != [] {
      var init, p := pdbids[..|pdbids| - 1], pdbids[|pdbids| - 1];
      FillPdbsAt(b, init, m, r, outcome, p', m', r');
      PutCaseAt(FillPdbs(b, init, m, r, outcome), p, m, r, EntryFor(outcome(p, m, r)), p', m', r');
      assert pdbids == init + [p];
      assert (set q | q in pdbids) == (set q | q in init) + {p};
    }
  }

  lemma {:induction false} FillRoundsAt(b: ByPdb, pdbids: seq<string>, m: string, rounds: int,
                                        outcome: (string, string, int) -> CaseOutcome, p': string, m': string, r': int)
    ensures FillRounds(b, pdbids, m, rounds, outcome).Keys == b.Keys + (if rounds > 0 then set q | q in pdbids else {})
    ensures At(FillRounds(b, pdbids, m, rounds, outcome), p', m', r') ==
            if p' in pdbids && m' == m && 0 <= r' < rounds then Some(EntryFor(outcome(p', m, r'))) else At(b, p', m', r')
    decreases rounds
  {
    if rounds > 0 {
      var prev := FillRounds(b, pdbids, m, rounds - 1, outcome);
      assert FillRounds(b, pdbids, m, rounds, outcome) == FillPdbs(prev, pdbids, m, rounds - 1, outcome);
      FillRoundsAt(b, pdbids, m, rounds - 1, outcome, p', m', r');
      FillPdbsAt(prev, pdbids, m, rounds - 1, outcome, p', m', r');
      var listed := set q | q in pdbids;
      assert prev.Keys + listed == b.Keys + listed;
    }
  }

  lemma {:induction false} FillModesAt(b: ByPdb, pdbids: seq<string>, modes: seq<string>, rounds: int,
                                       outcome: (string, string, int) -> CaseOutcome, p': string, m': string, r': int)
    ensures FillModes(b, pdbids, modes, rounds, outcome).Keys ==
            b.Keys + (if modes != [] && rounds > 0 then set q | q in pdbids else {})
    ensures At(FillModes(b, pdbids, modes, rounds, outcome), p', m', r') ==
            if p' in pdbids && m' in modes && 0 <= r' < rounds then Some(EntryFor(outcome(p', m', r'))) else At(b, p', m', r')
    decreases |modes|
  {
    if modes != [] {
      var init, m := modes[..|modes| - 1], modes[|modes| - 1];
      FillModesAt(b, pdbids, init, rounds, outcome, p', m', r');
      FillRoundsAt(FillModes(b, pdbids, init, rounds, outcome), pdbids, m, rounds, outcome, p', m', r');
      assert modes == init + [m];
    }
  }

  /** After a dataset's sweep, `results[dataset]` holds exactly one entry per
      structure, listed mode and round (the one its outcome gives) and no
      other, and its keys are the structures, unless no case ran at all. */
  lemma SweptDatasetSpec(pdbids: seq<string>, modes: seq<string>, rounds: int,
                         outcome: (string, string, int) -> CaseOutcome, p: string, m: string, r: int)
    ensures SweptDataset(pdbids, modes, rounds, outcome).Keys ==
            if modes != [] && rounds > 0 then set q | q in pdbids else {}
    ensures At(SweptDataset(pdbids, modes, rounds, outcome), p, m, r) ==
            if p in pdbids && m in modes && 0 <= r < rounds then Some(EntryFor(outcome(p, m, r))) else None
  {
    FillModesAt(map[], pdbids, modes, rounds, outcome, p, m, r);
  }

  // ---------------------------------------------------------------------------
  // The metrics of one group: a dataset, a mode and a round

  /** Why the metrics loop stops: a `KeyError`, `None[0]` (a `TypeError`),
      `[][0]` (an `IndexError`), adding `None` (a `TypeError`) or a division
      by zero. */
  datatype AggError = MissingEntry | NotSubscriptable | NoPoses | NoneAdded | ZeroDivision

  /** The entries `results[dataset][pdbid][mode][round]`, for each `pdbid`
      of the dataset's map in its key order. */
  function Column(b: ByPdb, order: seq<string>, m: string, r: int): (col: seq<Option<Entry>>)
    ensures |col| == |order|
  {
    seq(|order|, i requires 0 <= i < |order| => At(b, order[i], m, r))
  }

  /** `order` is the key order of a dataset's map: each `pdbid` once. */
  predicate KeyOrder(order: seq<string>, b: ByPdb) {
    && (forall a, c :: 0 <= a < c < |order| ==> order[a] != order[c])
    && (set p | p in order) == b.Keys
  }

  /** Iterating the map in key order visits `len(results[dataset])`
      structures, the divisor of both metrics. */
  lemma KeyOrderLength(order: seq<string>, b: ByPdb)
    requires KeyOrder(order, b)
    ensures |order| == |b|
  {
    DistinctCard(order);
  }

  /** A list without repeats has as many elements as its set. */
  lemma {:induction false} DistinctCard(xs: seq<string>)
    requires forall a, c :: 0 <= a < c < |xs| ==> xs[a] != xs[c]
    ensures |set p | p in xs| == |xs|
  {
    if xs != [] {
      DistinctCard(xs[1..]);
      assert (set p | p in xs) == (set p | p in xs[1..]) + {xs[0]};
      assert xs[0] !in xs[1..];
    }
  }

  /** `sum(entry["RMSD"][0] < 2.0 for ...)`, stopping at the first entry the
      expression cannot be evaluated on. */
  function SuccessCount(col: seq<Option<Entry>>): (r: Result<nat, AggError>)
    ensures r.Ok? ==> r.value <= |col|
  {
    if col == [] then Ok(0)
    else
      match col[0]
      case None => Err(MissingEntry)
      case Some(e) =>
        if e.rmsd.None? then Err(NotSubscriptable)
        else if e.rmsd.value == [] then Err(NoPoses)
        else
          match SuccessCount(col[1..])
          case Err(x) => Err(x)
          case Ok(n) => Ok((if Top1Success(e.rmsd.value) then 1 else 0) + n)
  }

  /** `sum(entry["cost_time"] for ...)`. */
  function TimeSum(col: seq<Option<Entry>>): Result<real, AggError> {
    if col == [] then Ok(0.0)
    else
      match col[0]
      case None => Err(MissingEntry)
      case Some(e) =>
        if e.costTime.None? then Err(NoneAdded)
        else
          match TimeSum(col[1..])
          case Err(x) => Err(x)
          case Ok(t) => Ok(e.costTime.value + t)
  }

  /** `success_rate` and `avr_time` of a group. */
  datatype Metrics = Metrics(successRate: real, avgTime: real)

  /** Lines 126-129: the success count, then the division by the number of
      structures, then the time sum and its division. */
  function GroupMetrics(col: seq<Option<Entry>>): (r: Result<Metrics, AggError>)
    ensures r.Ok? ==> 0.0 <= r.value.successRate <= 1.0
  {
    match SuccessCount(col)
    case Err(e) => Err(e)
    case Ok(n) =>
      if |col| == 0 then Err(ZeroDivision)
      else
        match TimeSum(col)
        case Err(e) => Err(e)
        case Ok(t) => Ok(Metrics(n as real / |col| as real, t / |col| as real))
  }

  /** An entry the success test can be evaluated on. */
  predicate Scored(e: Option<Entry>) {
    e.Some? && e.value.rmsd.Some? && |e.value.rmsd.value| > 0
  }

  /** An entry whose time can be added up. */
  predicate Timed(e: Option<Entry>) {
    e.Some? && e.value.costTime.Some?
  }

  /** `entry["RMSD"][0] < 2.0`. */
  predicate Top1Of(e: Option<Entry>)
    requires Scored(e)
  {
    Top1Success(e.value.rmsd.value)
  }

  /** `entry["cost_time"]`. */
  function TimeOf(e: Option<Entry>): real
    requires Timed(e)
  {
    e.value.costTime.value
  }

  /** The count succeeds exactly when every entry has poses; it is the
      number of groups when every first pose is correct and zero when
      none is. */
  lemma {:induction false} SuccessCountSpec(col: seq<Option<Entry>>)
    ensures SuccessCount(col).Ok? <==> forall i :: 0 <= i < |col| ==> Scored(col[i])
    ensures SuccessCount(col).Ok? ==>
              (SuccessCount(col).value == |col| <==>
                 forall i :: 0 <= i < |col| ==> Top1Of(col[i]))
    ensures SuccessCount(col).Ok? ==>
              (SuccessCount(col).value == 0 <==>
                 forall i :: 0 <= i < |col| ==> !Top1Of(col[i]))
  {
    if col != [] {
      SuccessCountSpec(col[1..]);
      assert forall i :: 1 <= i < |col| ==> col[i] == col[1..][i - 1];
      if SuccessCount(col).Ok? {
        assert SuccessCount(col[1..]).Ok?;
      } else if Scored(col[0]) {
        assert SuccessCount(col[1..]).Err?;
        var i :| 0 <= i < |col[1..]| && !Scored(col[1..][i]);
        assert !Scored(col[i + 1]);
      }
    }
  }

  /** The time sum succeeds exactly when every entry has a time. */
  lemma {:induction false} TimeSumOk(col: seq<Option<Entry>>)
    ensures TimeSum(col).Ok? <==> forall i :: 0 <= i < |col| ==> Timed(col[i])
  {
    if col != [] {
      TimeSumOk(col[1..]);
      assert forall i :: 1 <= i < |col| ==> col[i] == col[1..][i - 1];
      if TimeSum(col).Err? && Timed(col[0]) {
        assert TimeSum(col[1..]).Err?;
        var i :| 0 <= i < |col[1..]| && !Timed(col[1..][i]);
        assert !Timed(col[i + 1]);
      }
    }
  }

  /** Times between `lo` and `hi` add up to between `|col|` times each. */
  lemma {:induction false} TimeSumBounds(col: seq<Option<Entry>>, lo: real, hi: real)
    requires forall i :: 0 <= i < |col| ==> Timed(col[i]) && lo <= TimeOf(col[i]) <= hi
    ensures TimeSum(col).Ok?
    ensures lo * |col| as real <= TimeSum(col).value <= hi * |col| as real
  {
    if col != [] {
      var tail := col[1..];
      assert forall i :: 0 <= i < |tail| ==> tail[i] == col[i + 1];
      TimeSumBounds(tail, lo, hi);
      var t := TimeSum(tail).value;
      assert TimeSum(col) == Ok(TimeOf(col[0]) + t);
      var n := |tail| as real;
      assert |col| as real == n + 1.0;
      assert lo * (n + 1.0) == lo * n + lo && hi * (n + 1.0) == hi * n + hi;
    }
  }

  /** The time sum succeeds exactly when every entry has a time, and lies
      between `|col|` times the least and the greatest of them. */
  lemma TimeSumSpec(col: seq<Option<Entry>>, lo: real, hi: real)
    ensures TimeSum(col).Ok? <==> forall i :: 0 <= i < |col| ==> Timed(col[i])
    ensures TimeSum(col).Ok? && (forall i :: 0 <= i < |col| ==> lo <= TimeOf(col[i]) <= hi) ==>
              lo * |col| as real <= TimeSum(col).value <= hi * |col| as real
  {
    TimeSumOk(col);
    if TimeSum(col).Ok? && (forall i :: 0 <= i < |col| ==> lo <= TimeOf(col[i]) <= hi) {
      TimeSumBounds(col, lo, hi);
    }
  }

  /** A group's metrics exist exactly when the group is not empty and every
      entry has poses and a time. */
  lemma GroupMetricsOk(col: seq<Option<Entry>>)
    ensures GroupMetrics(col).Ok? <==>
              |col| > 0 && forall i :: 0 <= i < |col| ==> Scored(col[i]) && Timed(col[i])
  {
    SuccessCountSpec(col);
    TimeSumSpec(col, 0.0, 0.0);
  }

  /** Dividing by a positive count gives 1 exactly for the count itself and
      0 exactly for 0. */
  lemma QuotientExtremes(x: real, k: real)
    requires k > 0.0
    ensures x / k == 1.0 <==> x == k
    ensures x / k == 0.0 <==> x == 0.0
  {
  }

  /** A numerator between `lo` and `hi` times a positive count gives a
      quotient between `lo` and `hi`. */
  lemma QuotientBounds(x: real, k: real, lo: real, hi: real)
    requires k > 0.0 && lo * k <= x <= hi * k
    ensures lo <= x / k <= hi
  {
    assert lo * k <= (x / k) * k;
    assert (x / k) * k <= hi * k;
  }

  /** The success rate is the share of first poses below the threshold: 1
      exactly when every first pose is, and 0 exactly when none is. */
  lemma SuccessRateExtremes(col: seq<Option<Entry>>)
    requires |col| > 0 && forall i :: 0 <= i < |col| ==> Scored(col[i]) && Timed(col[i])
    ensures GroupMetrics(col).Ok?
    ensures GroupMetrics(col).value.successRate == SuccessCount(col).value as real / |col| as real
    ensures GroupMetrics(col).value.successRate == 1.0 <==>
              forall i :: 0 <= i < |col| ==> Top1Of(col[i])
    ensures GroupMetrics(col).value.successRate == 0.0 <==>
              forall i :: 0 <= i < |col| ==> !Top1Of(col[i])
  {
    GroupMetricsOk(col);
    SuccessCountSpec(col);
    QuotientExtremes(SuccessCount(col).value as real, |col| as real);
  }

  /** The time sum over the number of entries lies between the least and
      the greatest time. */
  lemma MeanTimeBounds(col: seq<Option<Entry>>, lo: real, hi: real)
    requires |col| > 0 && forall i :: 0 <= i < |col| ==> Timed(col[i])
    requires forall i :: 0 <= i < |col| ==> lo <= TimeOf(col[i]) <= hi
    ensures TimeSum(col).Ok?
    ensures lo <= TimeSum(col).value / |col| as real <= hi
  {
    TimeSumSpec(col, lo, hi);
    QuotientBounds(TimeSum(col).value, |col| as real, lo, hi);
  }

  /** The average time is the time sum over the number of structures, and
      lies between the least and the greatest time of the group. */
  lemma AverageTimeBounds(col: seq<Option<Entry>>, lo: real, hi: real)
    requires |col| > 0 && forall i :: 0 <= i < |col| ==> Scored(col[i]) && Timed(col[i])
    requires forall i :: 0 <= i < |col| ==> lo <= TimeOf(col[i]) <= hi
    ensures GroupMetrics(col).Ok?
    ensures GroupMetrics(col).value.avgTime == TimeSum(col).value / |col| as real
    ensures lo <= GroupMetrics(col).value.avgTime <= hi
  {
    GroupMetricsOk(col);
    MeanTimeBounds(col, lo, hi);
  }

  /** A line of `metrics.csv`. */
  datatype MetricRow = MetricRow(dataset: string, mode: string, round: int, successRate: real, avgTime: real)

  /** `Ok(xs + ys)` when `r` is `Ok(ys)`; errors pass through. */
  function PrependRows(xs: seq<MetricRow>, r: Result<seq<MetricRow>, AggError>): Result<seq<MetricRow>, AggError> {
    match r
    case Ok(ys) => Ok(xs + ys)
    case Err(e) => Err(e)
  }

  /** What the metrics loops over `modes` and `range(rounds)` add for one
      dataset from mode `i`, round `r` on, or the exception that ends them. */
  function RowsFrom(b: ByPdb, d: string, order: seq<string>, modes: seq<string>, rounds: int, i: nat, r: nat)
    : Result<seq<MetricRow>, AggError>
    requires i <= |modes|
    decreases |modes| - i, if r < rounds then rounds - r else 0
  {
    if i == |modes| then Ok([])
    else if r >= rounds then RowsFrom(b, d, order, modes, rounds, i + 1, 0)
    else
      match GroupMetrics(Column(b, order, modes[i], r))
      case Err(e) => Err(e)
      case Ok(x) => PrependRows([MetricRow(d, modes[i], r, x.successRate, x.avgTime)], RowsFrom(b, d, order, modes, rounds, i, r + 1))
  }

  /** The group `(modes[j], q)` comes at or after position `(i, r)` of the loops. */
  predicate FromHere(modes: seq<string>, rounds: int, i: nat, r: nat, j: int, q: int) {
    i <= j < |modes| && 0 <= q < rounds && (j > i || q >= r)
  }

  /** The metrics loops finish exactly when every group they reach has
      metrics, and then write one row per group, in loop order, each with a
      success rate between 0 and 1. */
  lemma {:induction false} RowsFromSpec(b: ByPdb, d: string, order: seq<string>, modes: seq<string>, rounds: int, i: nat, r: nat)
    requires i <= |modes|
    ensures RowsFrom(b, d, order, modes, rounds, i, r).Ok? <==>
              forall j, q :: FromHere(modes, rounds, i, r, j, q) ==> GroupMetrics(Column(b, order, modes[j], q)).Ok?
    ensures RowsFrom(b, d, order, modes, rounds, i, r).Ok? ==>
              forall k :: 0 <= k < |RowsFrom(b, d, order, modes, rounds, i, r).value| ==>
                var row := RowsFrom(b, d, order, modes, rounds, i, r).value[k];
                row.dataset == d && 0.0 <= row.successRate <= 1.0
    decreases |modes| - i, if r < rounds then rounds - r else 0
  {
    if i < |modes| {
      if r >= rounds {
        RowsFromSpec(b, d, order, modes, rounds, i + 1, 0);
        assert forall j, q :: FromHere(modes, rounds, i, r, j, q) <==> FromHere(modes, rounds, i + 1, 0, j, q);
      } else {
        RowsFromSpec(b, d, order, modes, rounds, i, r + 1);
        assert forall j, q :: FromHere(modes, rounds, i, r, j, q) <==>
                                (j == i && q == r) || FromHere(modes, rounds, i, r + 1, j, q);
      }
    }
  }

  /** `len(range(rounds))`. */
  function LoopRounds(rounds: int): nat {
    if rounds > 0 then rounds else 0
  }

  /** `rows[k]` is the metrics row of group `(modes[j], q)`. */
  predicate RowAt(rows: seq<MetricRow>, k: int, b: ByPdb, d: string, order: seq<string>,
                  modes: seq<string>, j: int, q: int) {
    && 0 <= k < |rows| && 0 <= j < |modes|
    && GroupMetrics(Column(b, order, modes[j], q)).Ok?
    && rows[k] == MetricRow(d, modes[j], q,
                            GroupMetrics(Column(b, order, modes[j], q)).value.successRate,
                            GroupMetrics(Column(b, order, modes[j], q)).value.avgTime)
  }

  /** `rows` holds one row per group at or after mode `i`, round `r`, and
      the row of group `(modes[j], q)` stands at its place in loop order,
      `j * R + q` counted from `i * R + r`, where `R` is the number of rounds. */
  ghost predicate RowsPlaced(rows: seq<MetricRow>, b: ByPdb, d: string, order: seq<string>,
                             modes: seq<string>, rounds: int, i: nat, r: nat) {
    && |rows| == (|modes| - i) * LoopRounds(rounds) - r
    && forall j, q :: FromHere(modes, rounds, i, r, j, q) ==>
         RowAt(rows, j * LoopRounds(rounds) + q - (i * LoopRounds(rounds) + r), b, d, order, modes, j, q)
  }

  /** Moving past the last round of mode `i` keeps every row in place. */
  lemma SkipPlaced(rows: seq<MetricRow>, b: ByPdb, d: string, order: seq<string>,
                   modes: seq<string>, rounds: int, i: nat, r: nat)
    requires i < |modes| && r >= rounds && r == LoopRounds(rounds)
    requires RowsPlaced(rows, b, d, order, modes, rounds, i + 1, 0)
    ensures RowsPlaced(rows, b, d, order, modes, rounds, i, r)
  {
    var n := LoopRounds(rounds);
    assert (i + 1) * n == i * n + n;
    assert (|modes| - i) * n == (|modes| - (i + 1)) * n + n;
    assert forall j, q :: FromHere(modes, rounds, i, r, j, q) ==> FromHere(modes, rounds, i + 1, 0, j, q);
  }

  /** The row of group `(modes[i], r)` goes in front of the rows after it. */
  lemma ConsPlaced(row: MetricRow, rows: seq<MetricRow>, b: ByPdb, d: string, order: seq<string>,
                   modes: seq<string>, rounds: int, i: nat, r: nat)
    requires i < |modes| && r < rounds
    requires GroupMetrics(Column(b, order, modes[i], r)).Ok?
    requires row == MetricRow(d, modes[i], r, GroupMetrics(Column(b, order, modes[i], r)).value.successRate,
                              GroupMetrics(Column(b, order, modes[i], r)).value.avgTime)
    requires RowsPlaced(rows, b, d, order, modes, rounds, i, r + 1)
    ensures RowsPlaced([row] + rows, b, d, order, modes, rounds, i, r)
  {
    var n := LoopRounds(rounds);
    forall j, q | FromHere(modes, rounds, i, r, j, q)
      ensures RowAt([row] + rows, j * n + q - (i * n + r), b, d, order, modes, j, q)
    {
      if j != i || q != r {
        assert FromHere(modes, rounds, i, r + 1, j, q);
        assert RowAt(rows, j * n + q - (i * n + r + 1), b, d, order, modes, j, q);
      }
    }
  }

  /** When the metrics loops finish from mode `i`, round `r`, their rows are
      exactly one per remaining group, each in its place in loop order. */
  lemma {:induction false} RowsFromRows(b: ByPdb, d: string, order: seq<string>, modes: seq<string>,
                                        rounds: int, i: nat, r: nat)
    requires i <= |modes| && r <= LoopRounds(rounds) && (i == |modes| ==> r == 0)
    ensures RowsFrom(b, d, order, modes, rounds, i, r).Ok? ==>
              RowsPlaced(RowsFrom(b, d, order, modes, rounds, i, r).value, b, d, order, modes, rounds, i, r)
    decreases |modes| - i, if r < rounds then rounds - r else 0
  {
    var res := RowsFrom(b, d, order, modes, rounds, i, r);
    if i < |modes| && res.Ok? {
      if r >= rounds {
        RowsFromRows(b, d, order, modes, rounds, i + 1, 0);
        SkipPlaced(res.value, b, d, order, modes, rounds, i, r);
      } else {
        var x := GroupMetrics(Column(b, order, modes[i], r)).value;
        var rest := RowsFrom(b, d, order, modes, rounds, i, r + 1);
        assert rest.Ok? && res.value == [MetricRow(d, modes[i], r, x.successRate, x.avgTime)] + rest.value;
        RowsFromRows(b, d, order, modes, rounds, i, r + 1);
        ConsPlaced(MetricRow(d, modes[i], r, x.successRate, x.avgTime), rest.value, b, d, order, modes, rounds, i, r);
      }
    }
  }

  /** `(modes[j], q)` is the first group at or after `(i, r)`, in loop order,
      whose metrics cannot be computed, and `e` is what it raises. */
  ghost predicate FirstFailure(b: ByPdb, order: seq<string>, modes: seq<string>, rounds: int,
                         i: nat, r: nat, j: int, q: int, e: AggError) {
    && FromHere(modes, rounds, i, r, j, q)
    && GroupMetrics(Column(b, order, modes[j], q)) == Err(e)
    && forall j', q' :: FromHere(modes, rounds, i, r, j', q') && (j' < j || (j' == j && q' < q)) ==>
         GroupMetrics(Column(b, order, modes[j'], q')).Ok?
  }

  /** When the metrics loops stop, they stop with the exception of the first
      group, in loop order, whose metrics cannot be computed. */
  lemma {:induction false} RowsFromFirstError(b: ByPdb, d: string, order: seq<string>, modes: seq<string>,
                                              rounds: int, i: nat, r: nat)
    requires i <= |modes|
    ensures RowsFrom(b, d, order, modes, rounds, i, r).Err? ==>
              exists j, q :: FirstFailure(b, order, modes, rounds, i, r, j, q,
                                          RowsFrom(b, d, order, modes, rounds, i, r).error)
    decreases |modes| - i, if r < rounds then rounds - r else 0
  {
    var res := RowsFrom(b, d, order, modes, rounds, i, r);
    if i < |modes| && res.Err? {
      if r >= rounds {
        RowsFromFirstError(b, d, order, modes, rounds, i + 1, 0);
        assert forall j, q :: FromHere(modes, rounds, i, r, j, q) <==> FromHere(modes, rounds, i + 1, 0, j, q);
        var j, q :| FirstFailure(b, order, modes, rounds, i + 1, 0, j, q, res.error);
        assert FirstFailure(b, order, modes, rounds, i, r, j, q, res.error);
      } else if GroupMetrics(Column(b, order, modes[i], r)).Err? {
        assert FirstFailure(b, order, modes, rounds, i, r, i, r, res.error);
      } else {
        var rest := RowsFrom(b, d, order, modes, rounds, i, r + 1);
        assert rest.Err? && rest.error == res.error;
        RowsFromFirstError(b, d, order, modes, rounds, i, r + 1);
        var j, q :| FirstFailure(b, order, modes, rounds, i, r + 1, j, q, res.error);
        assert forall j', q' :: FromHere(modes, rounds, i, r, j', q') ==>
                 (j' == i && q' == r) || FromHere(modes, rounds, i, r + 1, j', q');
        assert FirstFailure(b, order, modes, rounds, i, r, j, q, res.error);
      }
    }
  }

  /** `Succeeded` for every case of one group. */
  predicate GroupSucceeded(outcome: (string, string, int) -> CaseOutcome, pdbids: seq<string>, m: string, r: int) {
    forall p :: p in pdbids ==> Succeeded(outcome, p, m, r)
  }

  /** The metrics of a swept group exist exactly when the dataset has
      structures and none of the group's cases failed: one failure entry
      anywhere in the group stops the metrics. */
  lemma SweptGroupMetrics(pdbids: seq<string>, modes: seq<string>, rounds: int,
                          outcome: (string, string, int) -> CaseOutcome, m: string, r: int)
    requires m in modes && 0 <= r < rounds
    ensures GroupMetrics(Column(SweptDataset(pdbids, modes, rounds, outcome), pdbids, m, r)).Ok? <==>
              pdbids != [] && GroupSucceeded(outcome, pdbids, m, r)
  {
    var col := Column(SweptDataset(pdbids, modes, rounds, outcome), pdbids, m, r);
    GroupMetricsOk(col);
    forall i | 0 <= i < |pdbids|
      ensures col[i] == Some(EntryFor(outcome(pdbids[i], m, r)))
    {
      SweptDatasetSpec(pdbids, modes, rounds, outcome, pdbids[i], m, r);
    }
    if GroupMetrics(col).Ok? {
      forall p | p in pdbids
        ensures Succeeded(outcome, p, m, r)
      {
        var i :| 0 <= i < |pdbids| && pdbids[i] == p;
        assert Scored(col[i]);
      }
    } else if pdbids != [] && GroupSucceeded(outcome, pdbids, m, r) {
      forall i | 0 <= i < |col|
        ensures Scored(col[i]) && Timed(col[i])
      {
        assert Succeeded(outcome, pdbids[i], m, r);
      }
    }
  }

  /** After a dataset's sweep, its metrics rows are written exactly when it
      has structures and every one of its cases succeeded, given that some
      case ran. */
  lemma SweptDatasetMetrics(d: string, pdbids: seq<string>, modes: seq<string>, rounds: int,
                            outcome: (string, string, int) -> CaseOutcome)
    requires modes != [] && rounds > 0
    ensures RowsFrom(SweptDataset(pdbids, modes, rounds, outcome), d, pdbids, modes, rounds, 0, 0).Ok? <==>
              pdbids != [] && forall j, q :: 0 <= j < |modes| && 0 <= q < rounds ==> GroupSucceeded(outcome, pdbids, modes[j], q)
  {
    var b := SweptDataset(pdbids, modes, rounds, outcome);
    RowsFromSpec(b, d, pdbids, modes, rounds, 0, 0);
    forall j, q | 0 <= j < |modes| && 0 <= q < rounds
      ensures GroupMetrics(Column(b, pdbids, modes[j], q)).Ok? <==> pdbids != [] && GroupSucceeded(outcome, pdbids, modes[j], q)
    {
      SweptGroupMetrics(pdbids, modes, rounds, outcome, modes[j], q);
    }
    if pdbids == [] {
      assert FromHere(modes, rounds, 0, 0, 0, 0);
    }
  }

  // ---------------------------------------------------------------------------
  // The whole sweep: every dataset found on disk, in order

  /** What a case of dataset `d` gives, for every dataset. */
  type Outcomes = string -> (string, string, int) -> CaseOutcome

  /** `results` after sweeping `datasets`, starting from `r0`. */
  function SweepResults(r0: Results, datasets: seq<string>, pdbidsOf: string -> seq<string>,
                        modes: seq<string>, rounds: int, outcome: Outcomes): Results
    decreases |datasets|
  {
    if datasets == [] then r0
    else
      var d := datasets[|datasets| - 1];
      SweepResults(r0, datasets[..|datasets| - 1], pdbidsOf, modes, rounds, outcome)
        [d := SweptDataset(pdbidsOf(d), modes, rounds, outcome(d))]
  }

  /** The rows `results.csv` gains from sweeping `datasets`. */
  function SweepRows(datasets: seq<string>, pdbidsOf: string -> seq<string>,
                     modes: seq<string>, rounds: int, outcome: Outcomes): seq<CsvRow>
    decreases |datasets|
  {
    if datasets == [] then []
    else
      var d := datasets[|datasets| - 1];
      SweepRows(datasets[..|datasets| - 1], pdbidsOf, modes, rounds, outcome) +
      ModeRows(d, pdbidsOf(d), modes, rounds, outcome(d))
  }

  /** Sweeping one more dataset adds its entry and its rows. */
  lemma SweepStep(r0: Results, datasets: seq<string>, i: nat, pdbidsOf: string -> seq<string>,
                  modes: seq<string>, rounds: int, outcome: Outcomes)
    requires i < |datasets|
    ensures SweepResults(r0, datasets[..i + 1], pdbidsOf, modes, rounds, outcome) ==
            SweepResults(r0, datasets[..i], pdbidsOf, modes, rounds, outcome)
              [datasets[i] := SweptDataset(pdbidsOf(datasets[i]), modes, rounds, outcome(datasets[i]))]
    ensures SweepRows(datasets[..i + 1], pdbidsOf, modes, rounds, outcome) ==
            SweepRows(datasets[..i], pdbidsOf, modes, rounds, outcome) +
            ModeRows(datasets[i], pdbidsOf(datasets[i]), modes, rounds, outcome(datasets[i]))
  {
    assert datasets[..i + 1][..i] == datasets[..i];
  }

  /** After the sweep, `results` holds one entry per dataset swept, each the
      sweep of that dataset's structures, and keeps whatever else it held. */
  lemma {:induction false} SweepResultsSpec(r0: Results, datasets: seq<string>, pdbidsOf: string -> seq<string>,
                                            modes: seq<string>, rounds: int, outcome: Outcomes, d: string)
    ensures SweepResults(r0, datasets, pdbidsOf, modes, rounds, outcome).Keys == r0.Keys + (set x | x in datasets)
    ensures d in datasets ==>
              SweepResults(r0, datasets, pdbidsOf, modes, rounds, outcome)[d] ==
              SweptDataset(pdbidsOf(d), modes, rounds, outcome(d))
    ensures d !in datasets && d in r0 ==> SweepResults(r0, datasets, pdbidsOf, modes, rounds, outcome)[d] == r0[d]
    decreases |datasets|
  {
    if datasets != [] {
      var init := datasets[..|datasets| - 1];
      SweepResultsSpec(r0, init, pdbidsOf, modes, rounds, outcome, d);
      assert datasets == init + [datasets[|datasets| - 1]];
      assert (set x | x in datasets) == (set x | x in init) + {datasets[|datasets| - 1]};
    }
  }

  /** Every row of the whole sweep is the row of a case that succeeded, of
      a dataset swept, a listed mode and a round run. */
  lemma {:induction false} SweepRowsOfSuccesses(datasets: seq<string>, pdbidsOf: string -> seq<string>,
                                                modes: seq<string>, rounds: int, outcome: Outcomes)
    ensures forall row :: row in SweepRows(datasets, pdbidsOf, modes, rounds, outcome) ==>
              && row.CaseRow? && row.dataset in datasets && row.pdbid in pdbidsOf(row.dataset)
              && row.mode in modes && 0 <= row.round < rounds
              && Succeeded(outcome(row.dataset), row.pdbid, row.mode, row.round)
    decreases |datasets|
  {
    if datasets != [] {
      var init, d := datasets[..|datasets| - 1], datasets[|datasets| - 1];
      SweepRowsOfSuccesses(init, pdbidsOf, modes, rounds, outcome);
      ModeRowsOfSuccesses(d, pdbidsOf(d), modes, rounds, outcome(d));
      assert forall x :: x in init ==> x in datasets;
    }
  }

  // ---------------------------------------------------------------------------
  // The sweep state

  /** The results map and the text of `results.csv` (as rows), which the
      driver's loops update in place. */
  class DockingSweep {
    var results: Results
    var csv: seq<CsvRow>

    constructor ()
      ensures results == map[] && csv == []
    {
      results := map[];
      csv := [];
    }

    /** Records one case of dataset `d` (lines 96-113). */
    method RecordCase(d: string, p: string, m: string, r: int, o: CaseOutcome)
      requires d in results
      modifies this
      ensures results == old(results)[d := PutCase(old(results)[d], p, m, r, EntryFor(o))]
      ensures csv == old(csv) + CaseRows(d, p, m, r, o)
    {
      var byPdb := results[d];
      var byMode := if p in byPdb then byPdb[p] else map[];
      var byRound := if m in byMode then byMode[m] else map[];
      var e := EntryFor(o);
      results := results[d := byPdb[p := byMode[m := byRound[r := e]]]];
      csv := csv + CaseRows(d, p, m, r, o);
    }

    /** One pass of the structure loop: the case of `pdbids[k]`, with `r0`,
      `b0` and `c0` the state before the loop. */
    method RecordNext(d: string, pdbids: seq<string>, k: nat, m: string, r: int,
                      outcome: (string, string, int) -> CaseOutcome,
                      ghost r0: Results, ghost b0: ByPdb, ghost c0: seq<CsvRow>)
      requires k < |pdbids|
      requires d in results && results[d] == FillPdbs(b0, pdbids[..k], m, r, outcome)
      requires results - {d} == r0 - {d}
      requires csv == c0 + PdbRows(d, pdbids[..k], m, r, outcome)
      modifies this
      ensures d in results && results[d] == FillPdbs(b0, pdbids[..k + 1], m, r, outcome)
      ensures results - {d} == r0 - {d}
      ensures csv == c0 + PdbRows(d, pdbids[..k + 1], m, r, outcome)
    {
      var p := pdbids[k];
      ghost var before := results;
      RecordCase(d, p, m, r, outcome(p, m, r));
      UpdateElsewhere(before, d, results[d]);
      assert pdbids[..k + 1][..k] == pdbids[..k];
    }

    /** The innermost loop (lines 57-113): every structure of `pdbids`, in
      order, for one mode and one round. */
    method RunRound(d: string, pdbids: seq<string>, m: string, r: int,
                    outcome: (string, string, int) -> CaseOutcome)
      requires d in results
      modifies this
      ensures results == old(results)[d := FillPdbs(old(results)[d], pdbids, m, r, outcome)]
      ensures csv == old(csv) + PdbRows(d, pdbids, m, r, outcome)
    {
      ghost var r0, b0, c0 := results, results[d], csv;
      var k := 0;
      while k < |pdbids|
        invariant 0 <= k <= |pdbids|
        invariant d in results && results[d] == FillPdbs(b0, pdbids[..k], m, r, outcome)
        invariant results - {d} == r0 - {d}
        invariant csv == c0 + PdbRows(d, pdbids[..k], m, r, outcome)
      {
        RecordNext(d, pdbids, k, m, r, outcome, r0, b0, c0);
        k := k + 1;
      }
      assert pdbids[..k] == pdbids;
      UpdateRestores(results, r0, d);
    }

    /** One pass of the round loop: round `round` of mode `m`. */
    method RunNextRound(d: string, pdbids: seq<string>, m: string, round: int,
                        outcome: (string, string, int) -> CaseOutcome,
                        ghost r0: Results, ghost b0: ByPdb, ghost c0: seq<CsvRow>)
      requires round >= 0
      requires d in results && results[d] == FillRounds(b0, pdbids, m, round, outcome)
      requires results - {d} == r0 - {d}
      requires csv == c0 + RoundRows(d, pdbids, m, round, outcome)
      modifies this
      ensures d in results && results[d] == FillRounds(b0, pdbids, m, round + 1, outcome)
      ensures results - {d} == r0 - {d}
      ensures csv == c0 + RoundRows(d, pdbids, m, round + 1, outcome)
    {
      ghost var before := results;
      RunRound(d, pdbids, m, round, outcome);
      UpdateElsewhere(before, d, results[d]);
      RoundStep(d, b0, pdbids, m, round, outcome);
    }

    /** The loop over `range(round_num)` (line 54) for one mode. */
    method RunMode(d: string, pdbids: seq<string>, m: string, rounds: int,
                   outcome: (string, string, int) -> CaseOutcome)
      requires d in results
      modifies this
      ensures results == old(results)[d := FillRounds(old(results)[d], pdbids, m, rounds, outcome)]
      ensures csv == old(csv) + RoundRows(d, pdbids, m, rounds, outcome)
    {
      ghost var r0, b0, c0 := results, results[d], csv;
      var round := 0;
      while round < rounds
        invariant 0 <= round <= (if rounds < 0 then 0 else rounds)
        invariant d in results && results[d] == FillRounds(b0, pdbids, m, round, outcome)
        invariant results - {d} == r0 - {d}
        invariant csv == c0 + RoundRows(d, pdbids, m, round, outcome)
      {
        RunNextRound(d, pdbids, m, round, outcome, r0, b0, c0);
        round := round + 1;
      }
      UpdateRestores(results, r0, d);
    }

    /** One pass of the mode loop: mode `modes[i]` once `modes[..i]` are done. */
    method RunNextMode(d: string, pdbids: seq<string>, modes: seq<string>, i: nat, rounds: int,
                       outcome: (string, string, int) -> CaseOutcome,
                       ghost r0: Results, ghost c0: seq<CsvRow>)
      requires i < |modes|
      requires d in results && results[d] == FillModes(map[], pdbids, modes[..i], rounds, outcome)
      requires results - {d} == r0 - {d}
      requires csv == c0 + ModeRows(d, pdbids, modes[..i], rounds, outcome)
      modifies this
      ensures d in results && results[d] == FillModes(map[], pdbids, modes[..i + 1], rounds, outcome)
      ensures results - {d} == r0 - {d}
      ensures csv == c0 + ModeRows(d, pdbids, modes[..i + 1], rounds, outcome)
    {
      ghost var before := results;
      RunMode(d, pdbids, modes[i], rounds, outcome);
      UpdateElsewhere(before, d, results[d]);
      FillModesStep(pdbids, modes, i, rounds, outcome);
      ModeRowsStep(d, pdbids, modes, i, rounds, outcome);
    }

    /** One dataset of the sweep (lines 50-57): `results[d] = {}`, then every
      mode, every round and every structure in turn, with `outcome`
      standing for what running the case gives. */
    method RunDataset(d: string, pdbids: seq<string>, modes: seq<string>, rounds: int,
                      outcome: (string, string, int) -> CaseOutcome)
      modifies this
      ensures results == old(results)[d := SweptDataset(pdbids, modes, rounds, outcome)]
      ensures csv == old(csv) + ModeRows(d, pdbids, modes, rounds, outcome)
    {
      ghost var r0, c0 := results, csv;
      results := results[d := map[]];
      UpdateElsewhere(r0, d, map[]);
      var i := 0;
      while i < |modes|
        invariant 0 <= i <= |modes|
        invariant d in results && results[d] == FillModes(map[], pdbids, modes[..i], rounds, outcome)
        invariant results - {d} == r0 - {d}
        invariant csv == c0 + ModeRows(d, pdbids, modes[..i], rounds, outcome)
      {
        RunNextMode(d, pdbids, modes, i, rounds, outcome, r0, c0);
        i := i + 1;
      }
      assert modes[..i] == modes;
      UpdateRestores(results, r0, d);
    }

    /** The sweep loop (lines 49-57) over the datasets found on disk, with
      the round count the configuration gives and the modes it lists under
      `search_mode_list` (not under the misspelled key the driver reads, see
      `SearchModesAsWritten`); `pdbidsOf` lists each dataset's structures. */
    method RunSweep(config: Config, datasets: seq<string>, pdbidsOf: string -> seq<string>, outcome: Outcomes)
      requires WellTyped(config)
      modifies this
      ensures results == SweepResults(old(results), datasets, pdbidsOf, SearchModes(config), RoundCount(config), outcome)
      ensures csv == old(csv) + SweepRows(datasets, pdbidsOf, SearchModes(config), RoundCount(config), outcome)
    {
      var modes := SearchModes(config);
      var rounds := RoundCount(config);
      ghost var r0, c0 := results, csv;
      var i := 0;
      while i < |datasets|
        invariant 0 <= i <= |datasets|
        invariant results == SweepResults(r0, datasets[..i], pdbidsOf, modes, rounds, outcome)
        invariant csv == c0 + SweepRows(datasets[..i], pdbidsOf, modes, rounds, outcome)
      {
        RunNextDataset(datasets, i, pdbidsOf, modes, rounds, outcome, r0, c0);
        i := i + 1;
      }
      assert datasets[..i] == datasets;
    }

    /** One pass of the sweep loop: dataset `datasets[i]`. */
    method RunNextDataset(datasets: seq<string>, i: nat, pdbidsOf: string -> seq<string>,
                          modes: seq<string>, rounds: int, outcome: Outcomes,
                          ghost r0: Results, ghost c0: seq<CsvRow>)
      requires i < |datasets|
      requires results == SweepResults(r0, datasets[..i], pdbidsOf, modes, rounds, outcome)
      requires csv == c0 + SweepRows(datasets[..i], pdbidsOf, modes, rounds, outcome)
      modifies this
      ensures results == SweepResults(r0, datasets[..i + 1], pdbidsOf, modes, rounds, outcome)
      ensures csv == c0 + SweepRows(datasets[..i + 1], pdbidsOf, modes, rounds, outcome)
    {
      var d := datasets[i];
      RunDataset(d, pdbidsOf(d), modes, rounds, outcome(d));
      SweepStep(r0, datasets, i, pdbidsOf, modes, rounds, outcome);
    }

    /** The metrics loops of lines 124-130 for dataset `d`, whose structures
      `order` lists in the key order of `results[d]`. */
    method SummarizeDataset(d: string, order: seq<string>, modes: seq<string>, rounds: int)
      returns (r: Result<seq<MetricRow>, AggError>)
      requires d in results && KeyOrder(order, results[d])
      ensures r == RowsFrom(results[d], d, order, modes, rounds, 0, 0)
      ensures |order| == |results[d]|
      ensures r.Ok? ==> RowsPlaced(r.value, results[d], d, order, modes, rounds, 0, 0)
      ensures r.Err? ==> exists j, q :: FirstFailure(results[d], order, modes, rounds, 0, 0, j, q, r.error)
    {
      KeyOrderLength(order, results[d]);
      var b := results[d];
      var rows: seq<MetricRow> := [];
      var i := 0;
      assert RowsFrom(b, d, order, modes, rounds, 0, 0) == PrependRows(rows, RowsFrom(b, d, order, modes, rounds, 0, 0)) by {
        var t := RowsFrom(b, d, order, modes, rounds, 0, 0);
        if t.Ok? {
          assert [] + t.value == t.value;
        }
      }
      while i < |modes|
        invariant 0 <= i <= |modes|
        invariant RowsFrom(b, d, order, modes, rounds, 0, 0) == PrependRows(rows, RowsFrom(b, d, order, modes, rounds, i, 0))
      {
        var round := 0;
        while round < rounds
          invariant 0 <= round
          invariant RowsFrom(b, d, order, modes, rounds, 0, 0) == PrependRows(rows, RowsFrom(b, d, order, modes, rounds, i, round))
        {
          match GroupMetrics(Column(b, order, modes[i], round))
          case Err(e) =>
            RowsFromFirstError(b, d, order, modes, rounds, 0, 0);
            return Err(e);
          case Ok(x) =>
            var row := MetricRow(d, modes[i], round, x.successRate, x.avgTime);
            var rest := RowsFrom(b, d, order, modes, rounds, i, round + 1);
            if rest.Ok? {
              assert rows + ([row] + rest.value) == (rows + [row]) + rest.value;
            }
            rows := rows + [row];
          round := round + 1;
        }
        i := i + 1;
      }
      assert rows + [] == rows;
      RowsFromRows(b, d, order, modes, rounds, 0, 0);
      return Ok(rows);
    }
  }
}
