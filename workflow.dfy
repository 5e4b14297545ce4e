/**
 * `workflow.py`: the pipeline driver. It selects the stages to run, then runs the script of
 * each selected stage in the fixed order scrape, search, refine, availability, skipping a
 * stage whose input file is missing and stopping with status 1 at the first command that fails.
 */
module Workflow {
  import opened Wrappers
  import opened Strings

  datatype Stage = Scrape | Search | Refine | Availability

  /** `--source`. */
  datatype Source = Bbc | Hugo | Both

  type Command = seq<string>

  /**
   * The command line: `--source`, `--stages` (empty when not given), `--skip-scrape`,
   * `str(args.delay)`, `--limit` (0 when not given, which is falsy like `None`), and
   * `sys.executable`.
   */
  datatype Args = Args(source: Source, stages: seq<Stage>, skipScrape: bool, delay: string, limit: int, python: string)

  /**
   * What the commands run so far have done to the machine: whether a command exits with
   * status 0 (`subprocess.run`), and whether a file exists (`os.path.exists`), after the
   * commands in the history have run.
   */
  datatype World = World(succeeds: (seq<Command>, Command) -> bool, fileExists: (seq<Command>, string) -> bool)

  /** One command of the pipeline: its stage, the file it needs (if it is checked first) and its argument list. */
  datatype Step = Step(stage: Stage, needs: Option<string>, cmd: Command)

  // ----- the stages selected -----

  const AllStages: set<Stage> := {Scrape, Search, Refine, Availability}

  /** The `--stages` given, or all four; then `scrape` discarded under `--skip-scrape`. */
  function Selected(args: Args): set<Stage> {
    var stages := if args.stages != [] then set s | s in args.stages else AllStages;
    if args.skipScrape then stages - {Scrape} else stages
  }

  lemma SelectedStages(args: Args, s: Stage)
    ensures s in Selected(args) <==> (args.stages == [] || s in args.stages) && !(s == Scrape && args.skipScrape)
  {
  }

  // ----- the commands built -----

  function SourceName(source: Source): string {
    match source
    case Bbc => "bbc"
    case Hugo => "hugo"
    case Both => "both"
  }

  /** `cmd.extend(['--limit', str(args.limit)])` when the limit is truthy. */
  function WithLimit(cmd: Command, limit: int): Command {
    if limit != 0 then cmd + ["--limit", IntString(limit)] else cmd
  }

  function SearchResults(source: Source): string {
    "data/" + SourceName(source) + "_audiobook_search_results.json"
  }

  function RefinedResults(source: Source): string {
    "data/" + SourceName(source) + "_audiobook_search_results_refined.json"
  }

  function AvailableBooks(source: Source): string {
    "data/" + SourceName(source) + "_available_audiobooks.json"
  }

  function ScrapeSteps(args: Args): seq<Step> {
    if Scrape !in Selected(args) then []
    else
      (if args.source != Hugo then [Step(Scrape, None, WithLimit([args.python, "scrape_episodes.py"], args.limit))] else []) +
      (if args.source != Bbc then [Step(Scrape, None, WithLimit([args.python, "scrape_hugo_awards.py"], args.limit))] else [])
  }

  function SearchSteps(args: Args): seq<Step> {
    if Search !in Selected(args) then []
    else
      var cmd := [args.python, "search_combined.py", "--source", SourceName(args.source), "--delay", args.delay];
      [Step(Search, None, WithLimit(cmd, args.limit))]
  }

  function RefineSteps(args: Args): seq<Step> {
    if Refine !in Selected(args) then []
    else
      var input := SearchResults(args.source);
      [Step(Refine, Some(input), WithLimit([args.python, "refine_audiobooks.py", "--input", input], args.limit))]
  }

  /**
   * The availability stage: at most one step, present exactly when the stage is selected; it
   * needs the refined results and writes the available books of the same source.
   */
  function AvailabilitySteps(args: Args): (r: seq<Step>)
    ensures |r| <= 1
    ensures r != [] <==> Availability in Selected(args)
    ensures r != [] ==> (r[0].needs == Some(RefinedResults(args.source)) && 6 <= |r[0].cmd| &&
      r[0].cmd[..6] == [args.python, "check_availability.py", "--input", RefinedResults(args.source),
                        "--output", AvailableBooks(args.source)])
  {
    if Availability !in Selected(args) then []
    else
      var input := RefinedResults(args.source);
      var cmd := [args.python, "check_availability.py", "--input", input, "--output", AvailableBooks(args.source)];
      assert WithLimit(cmd, args.limit)[..6] == cmd;
      [Step(Availability, Some(input), WithLimit(cmd, args.limit))]
  }

  /** Every command `main` may run, in the order it would run them. */
  function Plan(args: Args): seq<Step> {
    ScrapeSteps(args) + SearchSteps(args) + RefineSteps(args) + AvailabilitySteps(args)
  }

  function Rank(s: Stage): nat {
    match s
    case Scrape => 0
    case Search => 1
    case Refine => 2
    case Availability => 3
  }

  /** The file a stage checks for before running: the search output for refine, the refined output for availability. */
  function Needs(stage: Stage, source: Source): Option<string> {
    match stage
    case Refine => Some(SearchResults(source))
    case Availability => Some(RefinedResults(source))
    case _ => None
  }

  /** The steps of one stage: all of them carry that stage, and there is one exactly when it is selected. */
  function StageSteps(args: Args, s: Stage): seq<Step> {
    match s
    case Scrape => ScrapeSteps(args)
    case Search => SearchSteps(args)
    case Refine => RefineSteps(args)
    case Availability => AvailabilitySteps(args)
  }

  lemma StageStepsOwn(args: Args, s: Stage)
    ensures forall st :: st in StageSteps(args, s) ==> st.stage == s && st.needs == Needs(s, args.source)
    ensures StageSteps(args, s) != [] <==> s in Selected(args)
  {
  }

  /** Every step of the plan belongs to a selected stage. */
  lemma PlanSelected(args: Args)
    ensures forall st :: st in Plan(args) ==> st.stage in Selected(args)
  {
    var a, b, c, d := StageSteps(args, Scrape), StageSteps(args, Search), StageSteps(args, Refine), StageSteps(args, Availability);
    assert Plan(args) == a + b + c + d;
    StageStepsOwn(args, Scrape);
    StageStepsOwn(args, Search);
    StageStepsOwn(args, Refine);
    StageStepsOwn(args, Availability);
  }

  /** The plan holds a step of each selected stage and of no other. */
  lemma PlanStages(args: Args)
    ensures forall s :: s in Selected(args) <==> exists st :: st in Plan(args) && st.stage == s
  {
    PlanSelected(args);
    var a, b, c, d := StageSteps(args, Scrape), StageSteps(args, Search), StageSteps(args, Refine), StageSteps(args, Availability);
    var p := Plan(args);
    assert p == a + b + c + d;
    forall s | s in Selected(args)
      ensures exists st :: st in p && st.stage == s
    {
      StageStepsOwn(args, s);
      var st := StageSteps(args, s)[0];
      assert st in a || st in b || st in c || st in d;
      assert st in p && st.stage == s;
    }
  }

  /** Four blocks of steps, of ranks 0 to 3 in turn, put together are in rank order. */
  lemma BlocksOrdered(a: seq<Step>, b: seq<Step>, c: seq<Step>, d: seq<Step>)
    requires forall st :: st in a ==> Rank(st.stage) == 0
    requires forall st :: st in b ==> Rank(st.stage) == 1
    requires forall st :: st in c ==> Rank(st.stage) == 2
    requires forall st :: st in d ==> Rank(st.stage) == 3
    ensures var p := a + b + c + d;
      forall i, j :: 0 <= i < j < |p| ==> Rank(p[i].stage) <= Rank(p[j].stage)
  {
    var p := a + b + c + d;
    forall i | 0 <= i < |p|
      ensures Rank(p[i].stage) == if i < |a| then 0 else if i < |a| + |b| then 1 else if i < |a| + |b| + |c| then 2 else 3
    {
      if i < |a| {
        assert p[i] == a[i] && a[i] in a;
      } else if i < |a| + |b| {
        assert p[i] == b[i - |a|] && b[i - |a|] in b;
      } else if i < |a| + |b| + |c| {
        assert p[i] == c[i - |a| - |b|] && c[i - |a| - |b|] in c;
      } else {
        assert p[i] == d[i - |a| - |b| - |c|] && d[i - |a| - |b| - |c|] in d;
      }
    }
  }

  /** Steps run in the fixed stage order: scrape, search, refine, availability. */
  lemma PlanOrdered(args: Args)
    ensures forall i, j :: 0 <= i < j < |Plan(args)| ==> Rank(Plan(args)[i].stage) <= Rank(Plan(args)[j].stage)
  {
    StageStepsOwn(args, Scrape);
    StageStepsOwn(args, Search);
    StageStepsOwn(args, Refine);
    StageStepsOwn(args, Availability);
    BlocksOrdered(StageSteps(args, Scrape), StageSteps(args, Search), StageSteps(args, Refine), StageSteps(args, Availability));
  }

  /** Only refine and availability check a file first: the search output and the refined output. */
  lemma PlanNeeds(args: Args)
    ensures forall st :: st in Plan(args) ==> st.needs == Needs(st.stage, args.source)
  {
    var a, b, c, d := StageSteps(args, Scrape), StageSteps(args, Search), StageSteps(args, Refine), StageSteps(args, Availability);
    assert Plan(args) == a + b + c + d;
    StageStepsOwn(args, Scrape);
    StageStepsOwn(args, Search);
    StageStepsOwn(args, Refine);
    StageStepsOwn(args, Availability);
  }

  /** Each command of `steps` with the limit arguments added. */
  function Limited(steps: seq<Step>, limit: int): (r: seq<Step>)
    ensures |r| == |steps|
  {
    seq(|steps|, i requires 0 <= i < |steps| => steps[i].(cmd := WithLimit(steps[i].cmd, limit)))
  }

  lemma LimitedConcat(a: seq<Step>, b: seq<Step>, limit: int)
    ensures Limited(a + b, limit) == Limited(a, limit) + Limited(b, limit)
  {
  }

  /**
   * The limit changes nothing but the end of each command: the plan is the one without a limit
   * with `--limit N` added to every command when the limit is truthy.
   */
  lemma PlanLimit(args: Args)
    ensures Plan(args) == Limited(Plan(args.(limit := 0)), args.limit)
  {
    var z := args.(limit := 0);
    var n := args.limit;
    assert Selected(z) == Selected(args);
    assert ScrapeSteps(args) == Limited(ScrapeSteps(z), n);
    assert SearchSteps(args) == Limited(SearchSteps(z), n);
    assert RefineSteps(args) == Limited(RefineSteps(z), n);
    assert AvailabilitySteps(args) == Limited(AvailabilitySteps(z), n);
    LimitedConcat(ScrapeSteps(z), SearchSteps(z), n);
    LimitedConcat(ScrapeSteps(z) + SearchSteps(z), RefineSteps(z), n);
    LimitedConcat(ScrapeSteps(z) + SearchSteps(z) + RefineSteps(z), AvailabilitySteps(z), n);
  }

  // ----- running the plan -----

  /**
   * `main` from the first stage on, with `ran` the commands already run: a step whose file is
   * missing is skipped; otherwise its command runs, and a failure ends everything with 1.
   */
  function Execute(steps: seq<Step>, w: World, ran: seq<Command>): (r: (int, seq<Command>))
    ensures ran <= r.1
  {
    if steps == [] then (0, ran)
    else
      var s := steps[0];
      if s.needs.Some? && !w.fileExists(ran, s.needs.value) then Execute(steps[1..], w, ran)
      else if !w.succeeds(ran, s.cmd) then (1, ran + [s.cmd])
      else Execute(steps[1..], w, ran + [s.cmd])
  }

  /** The commands of `steps`, in order. */
  function Commands(steps: seq<Step>): seq<Command> {
    if steps == [] then [] else [steps[0].cmd] + Commands(steps[1..])
  }

  /** Each command at positions `from..to` of `ran` succeeded after the ones before it. */
  predicate Succeeded(w: World, ran: seq<Command>, from: nat, to: nat)
    requires to <= |ran|
  {
    forall i :: from <= i < to ==> w.succeeds(ran[..i], ran[i])
  }

  /**
   * The exit status is 0 or 1: 0 only when every command run succeeded, 1 only when the last
   * command run failed and all before it succeeded, so that nothing runs after the first failure.
   */
  lemma {:induction false} ExecuteStatus(steps: seq<Step>, w: World, ran: seq<Command>)
    ensures var r := Execute(steps, w, ran);
      (r.0 == 0 || r.0 == 1) &&
      (r.0 == 0 ==> Succeeded(w, r.1, |ran|, |r.1|)) &&
      (r.0 == 1 ==> (|r.1| > |ran| && Succeeded(w, r.1, |ran|, |r.1| - 1) && !w.succeeds(r.1[..|r.1| - 1], r.1[|r.1| - 1])))
    decreases |steps|
  {
    if steps != [] {
      var s := steps[0];
      if s.needs.Some? && !w.fileExists(ran, s.needs.value) {
        ExecuteStatus(steps[1..], w, ran);
      } else if !w.succeeds(ran, s.cmd) {
        assert (ran + [s.cmd])[..|ran|] == ran;
      } else {
        var next := ran + [s.cmd];
        ExecuteStatus(steps[1..], w, next);
        var r := Execute(steps[1..], w, next);
        assert r.1[..|ran|] == ran && r.1[|ran|] == s.cmd by {
          assert r.1[..|next|] == next;
        }
        forall i | |ran| <= i < |r.1| && (r.0 == 0 || i < |r.1| - 1)
          ensures w.succeeds(r.1[..i], r.1[i])
        {
          if i == |ran| {
            assert r.1[..i] == ran;
          }
        }
      }
    }
  }

  /** `idx` picks, in increasing order, the steps whose commands were run, each with its file present. */
  predicate RanSteps(steps: seq<Step>, w: World, ran: seq<Command>, after: seq<Command>, idx: seq<nat>)
    requires |ran| + |idx| == |after|
  {
    (forall k :: 0 <= k < |idx| ==>
      (idx[k] < |steps| && steps[idx[k]].cmd == after[|ran| + k] &&
       (steps[idx[k]].needs.Some? ==> w.fileExists(after[..|ran| + k], steps[idx[k]].needs.value)))) &&
    (forall k, l :: 0 <= k < l < |idx| ==> idx[k] < idx[l])
  }

  /** Positions in the rest of a plan, as positions in the whole plan. */
  function Shift(idx: seq<nat>): (r: seq<nat>)
    ensures |r| == |idx|
  {
    seq(|idx|, k requires 0 <= k < |idx| => idx[k] + 1)
  }

  /** Skipping the first step: the steps run from the rest are steps run from the whole. */
  lemma RanStepsSkip(steps: seq<Step>, w: World, ran: seq<Command>, after: seq<Command>, tail: seq<nat>)
    requires steps != [] && |ran| + |tail| == |after|
    requires RanSteps(steps[1..], w, ran, after, tail)
    ensures RanSteps(steps, w, ran, after, Shift(tail))
  {
  }

  /** Running the first step, then some of the rest. */
  lemma RanStepsRun(steps: seq<Step>, w: World, ran: seq<Command>, after: seq<Command>, tail: seq<nat>)
    requires steps != [] && |ran| + 1 + |tail| == |after|
    requires steps[0].needs.Some? ==> w.fileExists(ran, steps[0].needs.value)
    requires after[..|ran| + 1] == ran + [steps[0].cmd]
    requires RanSteps(steps[1..], w, ran + [steps[0].cmd], after, tail)
    ensures RanSteps(steps, w, ran, after, [0] + Shift(tail))
  {
    var idx := [0] + Shift(tail);
    assert after[..|ran|] == ran && after[|ran|] == steps[0].cmd by {
      assert after[..|ran|] == (ran + [steps[0].cmd])[..|ran|];
    }
    forall k | 0 < k < |idx|
      ensures idx[k] == tail[k - 1] + 1 && steps[idx[k]] == steps[1..][tail[k - 1]]
    {
    }
  }

  /**
   * The commands run are those of some of the steps, in plan order, each checked step's file
   * existing when its command ran.
   */
  lemma {:induction false} ExecuteOrder(steps: seq<Step>, w: World, ran: seq<Command>) returns (idx: seq<nat>)
    ensures |ran| + |idx| == |Execute(steps, w, ran).1|
    ensures RanSteps(steps, w, ran, Execute(steps, w, ran).1, idx)
    decreases |steps|
  {
    if steps == [] {
      idx := [];
    } else {
      var s := steps[0];
      var rest := steps[1..];
      if s.needs.Some? && !w.fileExists(ran, s.needs.value) {
        var tail := ExecuteOrder(rest, w, ran);
        RanStepsSkip(steps, w, ran, Execute(rest, w, ran).1, tail);
        idx := Shift(tail);
      } else if !w.succeeds(ran, s.cmd) {
        idx := [0];
        assert (ran + [s.cmd])[..|ran|] == ran;
      } else {
        var next := ran + [s.cmd];
        var tail := ExecuteOrder(rest, w, next);
        var after := Execute(rest, w, next).1;
        assert after[..|next|] == next;
        RanStepsRun(steps, w, ran, after, tail);
        idx := [0] + Shift(tail);
      }
    }
  }

  /** With no step checking a file and no failure, every command of the plan ran, in order. */
  lemma {:induction false} ExecuteAll(steps: seq<Step>, w: World, ran: seq<Command>)
    requires forall j :: 0 <= j < |steps| ==> steps[j].needs.None?
    ensures Execute(steps, w, ran).0 == 0 ==> Execute(steps, w, ran).1 == ran + Commands(steps)
    decreases |steps|
  {
    if steps != [] {
      var s := steps[0];
      assert s.needs.None?;
      if w.succeeds(ran, s.cmd) {
        ExecuteAll(steps[1..], w, ran + [s.cmd]);
      }
    }
  }

  /** Running one plan after another: the second starts from what the first ran, unless the first failed. */
  lemma {:induction false} ExecuteConcat(a: seq<Step>, b: seq<Step>, w: World, ran: seq<Command>)
    ensures Execute(a + b, w, ran) ==
      var r := Execute(a, w, ran);
      if r.0 == 1 then r else Execute(b, w, r.1)
    decreases |a|
  {
    if a != [] {
      assert (a + b)[0] == a[0] && (a + b)[1..] == a[1..] + b;
      var s := a[0];
      if s.needs.Some? && !w.fileExists(ran, s.needs.value) {
        ExecuteConcat(a[1..], b, w, ran);
      } else if w.succeeds(ran, s.cmd) {
        ExecuteConcat(a[1..], b, w, ran + [s.cmd]);
      }
    } else {
      assert a + b == b;
      ExecuteZeroOrOne(b, w, ran);
    }
  }

  lemma {:induction false} ExecuteZeroOrOne(steps: seq<Step>, w: World, ran: seq<Command>)
    ensures Execute(steps, w, ran).0 == 0 || Execute(steps, w, ran).0 == 1
    decreases |steps|
  {
    if steps != [] {
      ExecuteZeroOrOne(steps[1..], w, ran);
      ExecuteZeroOrOne(steps[1..], w, ran + [steps[0].cmd]);
    }
  }

  // ----- `main` -----

  /** `run_command`: whether the command exits with status 0; it is added to the history either way. */
  method RunCommand(w: World, ran: seq<Command>, cmd: Command) returns (ok: bool, after: seq<Command>)
    ensures ok == w.succeeds(ran, cmd) && after == ran + [cmd]
  {
    ok := w.succeeds(ran, cmd);
    after := ran + [cmd];
  }

  /** Stage 1: the BBC scraper for `bbc`/`both`, then the Hugo scraper for `hugo`/`both`. */
  method ScrapeStage(args: Args, stages: set<Stage>, w: World, ran0: seq<Command>) returns (ok: bool, ran: seq<Command>)
    requires stages == Selected(args)
    ensures Execute(ScrapeSteps(args), w, ran0) == (if ok then 0 else 1, ran)
  {
    ran := ran0;
    ok := true;
    if Scrape !in stages {
      return;
    }
    var bbc := WithLimit([args.python, "scrape_episodes.py"], args.limit);
    var hugo := WithLimit([args.python, "scrape_hugo_awards.py"], args.limit);
    var steps := ScrapeSteps(args);
    if args.source == Bbc || args.source == Both {
      ok, ran := RunCommand(w, ran, bbc);
      if !ok {
        assert steps[0] == Step(Scrape, None, bbc);
        return;
      }
    }
    if args.source == Hugo || args.source == Both {
      var last := [Step(Scrape, None, hugo)];
      assert steps == (if args.source == Both then [Step(Scrape, None, bbc)] + last else last);
      assert Execute(last, w, ran) == (if w.succeeds(ran, hugo) then 0 else 1, ran + [hugo]) by {
        assert last[1..] == [];
      }
      ok, ran := RunCommand(w, ran, hugo);
    } else {
      assert steps == [Step(Scrape, None, bbc)];
      assert steps[1..] == [];
    }
  }

  /** Stage 2: the combined search, with the source and the delay. */
  method SearchStage(args: Args, stages: set<Stage>, w: World, ran0: seq<Command>) returns (ok: bool, ran: seq<Command>)
    requires stages == Selected(args)
    ensures Execute(SearchSteps(args), w, ran0) == (if ok then 0 else 1, ran)
  {
    ran := ran0;
    ok := true;
    if Search in stages {
      var cmd := [args.python, "search_combined.py", "--source", SourceName(args.source), "--delay", args.delay];
      cmd := WithLimit(cmd, args.limit);
      ok, ran := RunCommand(w, ran, cmd);
    }
  }

  /** Stage 3: refining, skipped when the search results file does not exist. */
  method RefineStage(args: Args, stages: set<Stage>, w: World, ran0: seq<Command>) returns (ok: bool, ran: seq<Command>)
    requires stages == Selected(args)
    ensures Execute(RefineSteps(args), w, ran0) == (if ok then 0 else 1, ran)
  {
    ran := ran0;
    ok := true;
    if Refine in stages {
      var input := SearchResults(args.source);
      if w.fileExists(ran, input) {
        var cmd := WithLimit([args.python, "refine_audiobooks.py", "--input", input], args.limit);
        ok, ran := RunCommand(w, ran, cmd);
      }
    }
  }

  /** Stage 4: the availability check, skipped when the refined results file does not exist. */
  method AvailabilityStage(args: Args, stages: set<Stage>, w: World, ran0: seq<Command>) returns (ok: bool, ran: seq<Command>)
    requires stages == Selected(args)
    ensures Execute(AvailabilitySteps(args), w, ran0) == (if ok then 0 else 1, ran)
  {
    ran := ran0;
    ok := true;
    if Availability in stages {
      var input := RefinedResults(args.source);
      if w.fileExists(ran, input) {
        var cmd := [args.python, "check_availability.py", "--input", input, "--output", AvailableBooks(args.source)];
        cmd := WithLimit(cmd, args.limit);
        ok, ran := RunCommand(w, ran, cmd);
      }
    }
  }

  /** `main`: the exit status and the commands run, in order, are those of executing the plan. */
  method RunWorkflow(args: Args, w: World) returns (code: int, ran: seq<Command>)
    ensures (code, ran) == Execute(Plan(args), w, [])
  {
    var stages: set<Stage>;
    if args.stages != [] {
      stages := set s | s in args.stages;
    } else {
      stages := {Scrape, Search, Refine, Availability};
    }
    if args.skipScrape {
      stages := stages - {Scrape};
    }
    var a, b, c, d := ScrapeSteps(args), SearchSteps(args), RefineSteps(args), AvailabilitySteps(args);
    ExecuteConcat(a, b + c + d, w, []);
    assert Plan(args) == a + (b + c + d);
    var ok;
    ok, ran := ScrapeStage(args, stages, w, []);
    if !ok {
      return 1, ran;
    }
    ExecuteConcat(b, c + d, w, ran);
    assert b + c + d == b + (c + d);
    ok, ran := SearchStage(args, stages, w, ran);
    if !ok {
      return 1, ran;
    }
    ExecuteConcat(c, d, w, ran);
    ok, ran := RefineStage(args, stages, w, ran);
    if !ok {
      return 1, ran;
    }
    ok, ran := AvailabilityStage(args, stages, w, ran);
    if !ok {
      return 1, ran;
    }
    return 0, ran;
  }
}
