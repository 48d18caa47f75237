/**
 * `run_benchmark`: `REPEATS` runs of `hashcat -b -m <mode> --force` for one
 * algorithm, one record per run, and the loop of the main block that
 * benchmarks every selected algorithm in turn.
 *
 * The hashcat process is a `Tool`: a function from the command line, the
 * timeout and the number of the run to what `subprocess.run` delivered, or
 * to `None` when it raised. The clock is folded into the same answer as the
 * elapsed seconds of the run.
 */
module Benchmark {
  import opened Wrappers
  import opened Text
  import opened Numerals
  import opened SpeedParser

  /** Runs per algorithm. */
  const REPEATS: nat := 3

  /** Seconds hashcat may take before `subprocess.run` gives up on it. */
  const TIMEOUT_SECONDS: nat := 90

  /** The text that marks the line of hashcat's output holding the speed. */
  const SPEED_MARKER: string := "Speed.#"

  /** The speed text of a run whose hashcat call raised. */
  const ERROR_TEXT: string := "Error"

  /** A hashcat run that completed: its standard output, its exit code and
      the seconds from just before the call to just after it. */
  datatype Invocation = Invocation(stdout: string, exitCode: int, elapsed: real)

  /** The hashcat process: the command line, the timeout in seconds and the
      number of the run give what the call delivered, or `None` when it
      raised (hashcat could not be started, the timeout expired, its output
      could not be decoded). */
  type Tool = (seq<string>, nat, nat) -> Option<Invocation>

  /** One entry of the algorithm list. */
  datatype Algorithm = Algorithm(name: string, mode: int)

  /** One row of results: `{name, mode, speed_raw, speed_hps, duration}`. */
  datatype Record = Record(name: string, mode: int, speedRaw: string, speedHps: Option<real>, duration: Option<real>)

  /** `["hashcat", "-b", "-m", str(mode), "--force"]`. */
  function Command(mode: int): (argv: seq<string>)
    ensures |argv| == 5
    ensures argv[0] == "hashcat" && argv[1] == "-b" && argv[2] == "-m" && argv[4] == "--force"
    ensures IsIntToken(argv[3]) && ParseInt(argv[3]) == mode
  {
    IntRoundTrip(mode);
    ["hashcat", "-b", "-m", IntToString(mode), "--force"]
  }

  /** `next((l for l in lines if marker in l), None)`. */
  function FirstContaining(lines: seq<string>, marker: string): (r: Option<string>)
    ensures r.None? <==> forall k :: 0 <= k < |lines| ==> !Contains(lines[k], marker)
    ensures r.Some? ==> r.value in lines && Contains(r.value, marker)
  {
    if lines == [] then None
    else if Contains(lines[0], marker) then Some(lines[0])
    else FirstContaining(lines[1..], marker)
  }

  /** The line handed to `parse_speed`: the first line of the output that
      contains the marker, if there is one. */
  function SpeedLine(stdout: string): Option<string> {
    FirstContaining(Lines(stdout), SPEED_MARKER)
  }

  /** The record of one run, given what the hashcat call delivered. A call
      that raised gives `("Error", None, None)`; otherwise the speed comes
      from the output's speed line and the duration is always present. */
  function Trial(mode: int, name: string, outcome: Option<Invocation>, ops: FloatOps): (rec: Record)
    ensures rec.name == name && rec.mode == mode
    ensures rec.duration.None? <==> outcome.None?
    ensures outcome.None? ==> rec.speedRaw == ERROR_TEXT && rec.speedHps.None?
    ensures rec.speedHps.Some? ==> outcome.Some? && SpeedLine(outcome.value.stdout).Some?
  {
    match outcome
    case None => Record(name, mode, ERROR_TEXT, None, None)
    case Some(run) =>
      var speed := ParseSpeed(SpeedLine(run.stdout), ops);
      Record(name, mode, speed.raw, speed.hps, Some(ops.round2(run.elapsed)))
  }

  /** The outcome of run `i` of the algorithm `mode`. */
  function Outcome(tool: Tool, mode: int, i: nat): Option<Invocation> {
    tool(Command(mode), TIMEOUT_SECONDS, i)
  }

  /** What `run_benchmark(mode, name)` returns: one record per run, in
      run order. */
  function Runs(mode: int, name: string, tool: Tool, ops: FloatOps): seq<Record> {
    seq(REPEATS, i requires 0 <= i < REPEATS => Trial(mode, name, Outcome(tool, mode, i), ops))
  }

  /** `run_benchmark(mode, name)`. */
  method RunBenchmark(mode: int, name: string, tool: Tool, ops: FloatOps) returns (results: seq<Record>)
    ensures |results| == REPEATS
    ensures forall i :: 0 <= i < REPEATS ==> results[i] == Trial(mode, name, Outcome(tool, mode, i), ops)
  {
    results := [];
    for i := 0 to REPEATS
      invariant |results| == i
      invariant forall k :: 0 <= k < i ==> results[k] == Trial(mode, name, Outcome(tool, mode, k), ops)
    {
      var rawSpeed: string, hps: Option<real>, duration: Option<real>;
      match tool(Command(mode), TIMEOUT_SECONDS, i) {
        case Some(proc) =>
          duration := Some(ops.round2(proc.elapsed));
          var speedLine := SpeedLine(proc.stdout);
          var speed := ParseSpeed(speedLine, ops);
          rawSpeed, hps := speed.raw, speed.hps;
        case None =>
          rawSpeed, hps, duration := ERROR_TEXT, None, None;
      }
      results := results + [Record(name, mode, rawSpeed, hps, duration)];
    }
  }

  /** The records of a whole session: the runs of each algorithm, one
      algorithm after the other. */
  function Suite(algos: seq<Algorithm>, tool: Tool, ops: FloatOps): seq<Record>
    decreases |algos|
  {
    if algos == [] then []
    else
      var last := algos[|algos| - 1];
      Suite(algos[..|algos| - 1], tool, ops) + Runs(last.mode, last.name, tool, ops)
  }

  /** `for algo in algos: all_results.extend(run_benchmark(algo["mode"], algo["name"]))`. */
  method RunAll(algos: seq<Algorithm>, tool: Tool, ops: FloatOps) returns (allResults: seq<Record>)
    ensures allResults == Suite(algos, tool, ops)
    ensures |allResults| == |algos| * REPEATS
  {
    allResults := [];
    for k := 0 to |algos|
      invariant allResults == Suite(algos[..k], tool, ops)
    {
      var algo := algos[k];
      var results := RunBenchmark(algo.mode, algo.name, tool, ops);
      assert results == Runs(algo.mode, algo.name, tool, ops);
      assert algos[..k + 1][..k] == algos[..k];
      allResults := allResults + results;
    }
    assert algos[..|algos|] == algos;
    SuiteLength(algos, tool, ops);
  }

  // -----------------------------------------------------------------------
  // Properties

  /** The first line that contains the marker is the one handed on, however
      many later lines also contain it. */
  lemma {:induction false} FirstContainingAt(lines: seq<string>, marker: string, k: nat)
    requires k < |lines| && Contains(lines[k], marker)
    requires forall j :: 0 <= j < k ==> !Contains(lines[j], marker)
    ensures FirstContaining(lines, marker) == Some(lines[k])
  {
    if k > 0 {
      FirstContainingAt(lines[1..], marker, k - 1);
    }
  }

  /** Whatever hashcat's exit code, a completed run is read the same way:
      a failing exit status is not an error. */
  lemma ExitCodeIgnored(mode: int, name: string, stdout: string, elapsed: real, code1: int, code2: int, ops: FloatOps)
    ensures Trial(mode, name, Some(Invocation(stdout, code1, elapsed)), ops)
         == Trial(mode, name, Some(Invocation(stdout, code2, elapsed)), ops)
  {
  }

  /** A run whose output splits into the lines `lines`, the `k`-th being
      the first with the marker, is read from that line alone. */
  lemma ReadsFirstSpeedLine(mode: int, name: string, stdout: string, lines: seq<string>, k: nat, code: int, elapsed: real, ops: FloatOps)
    requires Lines(stdout) == lines
    requires k < |lines| && Contains(lines[k], SPEED_MARKER)
    requires forall j :: 0 <= j < k ==> !Contains(lines[j], SPEED_MARKER)
    ensures var rec := Trial(mode, name, Some(Invocation(stdout, code, elapsed)), ops);
      && rec == Record(name, mode, ParseSpeed(Some(lines[k]), ops).raw, ParseSpeed(Some(lines[k]), ops).hps, Some(ops.round2(elapsed)))
  {
    FirstContainingAt(lines, SPEED_MARKER, k);
  }

  /** A run whose output has no speed line still has its duration, with
      `"N/A"` and no speed. */
  lemma NoSpeedLine(mode: int, name: string, stdout: string, code: int, elapsed: real, ops: FloatOps)
    requires forall j :: 0 <= j < |Lines(stdout)| ==> !Contains(Lines(stdout)[j], SPEED_MARKER)
    ensures Trial(mode, name, Some(Invocation(stdout, code, elapsed)), ops)
         == Record(name, mode, "N/A", None, Some(ops.round2(elapsed)))
  {
    assert SpeedLine(stdout) == None;
  }

  /** A session has `REPEATS` records per algorithm. */
  lemma {:induction false} SuiteLength(algos: seq<Algorithm>, tool: Tool, ops: FloatOps)
    ensures |Suite(algos, tool, ops)| == |algos| * REPEATS
    decreases |algos|
  {
    if algos != [] {
      SuiteLength(algos[..|algos| - 1], tool, ops);
    }
  }

  /** Record `a * REPEATS + i` of a session is run `i` of algorithm `a`:
      algorithm-major order, each algorithm's runs in run order. */
  lemma {:induction false} SuiteAt(algos: seq<Algorithm>, tool: Tool, ops: FloatOps, a: nat, i: nat)
    requires a < |algos| && i < REPEATS
    ensures a * REPEATS + i < |Suite(algos, tool, ops)|
    ensures Suite(algos, tool, ops)[a * REPEATS + i]
         == Trial(algos[a].mode, algos[a].name, Outcome(tool, algos[a].mode, i), ops)
    decreases |algos|
  {
    var n := |algos| - 1;
    var front := algos[..n];
    var last := algos[n];
    var prefix := Suite(front, tool, ops);
    var runs := Runs(last.mode, last.name, tool, ops);
    assert Suite(algos, tool, ops) == prefix + runs;
    SuiteLength(front, tool, ops);
    assert |prefix| == n * REPEATS;
    if a < n {
      SuiteAt(front, tool, ops, a, i);
      assert a * REPEATS + i < n * REPEATS;
      assert front[a] == algos[a];
    } else {
      assert a * REPEATS + i == |prefix| + i;
      assert runs[i] == Trial(last.mode, last.name, Outcome(tool, last.mode, i), ops);
    }
  }
}
