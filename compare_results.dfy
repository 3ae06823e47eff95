/**
 * The evaluation driver of compare_results.py: the command line
 * `evaluate_model` runs and the result rows `main` collects, one configured
 * agent after another. The subprocess is an input function from the argument
 * vector to its completion.
 */
module CompareResults {
  import opened Wrappers
  import opened PyText
  import opened PyInt
  import opened Checkpoints

  /** What `subprocess.run(..., capture_output=True)` reports back. */
  datatype Completed = Completed(returncode: int, stdout: string)

  /** The settings `evaluate_model.py` receives as `key=value` overrides. */
  datatype EvalRequest = EvalRequest(
    agent: string, task: string, seed: int, ckptDir: string, ckptEpisode: string, nEvalEpisodes: int)

  const EvalScript: string := "evaluate_model.py"

  /** The keys of the six overrides `evaluate_model` passes, in the order it passes them. */
  const OverrideKeys: seq<string> := ["agent=", "task=", "seed=", "ckpt_dir=", "ckpt_episode=", "n_eval_episodes="]

  /** The argument vector `evaluate_model` builds, in its fixed order. */
  function EvalCommand(python: string, agentName: string, task: string, seed: int,
                       ckptDir: string, ckptEpisode: string, nEpisodes: int): (cmd: seq<string>)
    ensures |cmd| == 9 && cmd[0] == python && cmd[1] == EvalScript && cmd[8] == "use_wb=False"
    ensures forall k :: 0 <= k < |OverrideKeys| ==> StartsWith(cmd[2 + k], OverrideKeys[k])
  {
    [ python, EvalScript,
      "agent=" + Lower(agentName),
      "task=" + task,
      "seed=" + FormatInt(seed),
      "ckpt_dir=" + ckptDir,
      "ckpt_episode=" + ckptEpisode,
      "n_eval_episodes=" + FormatInt(nEpisodes),
      "use_wb=False" ]
  }

  /** The value of the first override among `args` that starts with `key` (which ends in "="). */
  function OverrideValue(args: seq<string>, key: string): (r: Option<string>)
    ensures r.Some? ==> exists k :: 0 <= k < |args| && args[k] == key + r.value
  {
    if args == [] then None
    else if StartsWith(args[0], key) then
      assert args[0] == key + args[0][|key|..];
      Some(args[0][|key|..])
    else
      var r := OverrideValue(args[1..], key);
      assert r.Some? ==> args[1..][0] == args[1];
      r
  }

  /**
   * A key-lookup decoder for the argument vector: the script name, then each
   * override found by its key, the two counts parsed as integers. It exists
   * to state that every value travels under its own key; how the evaluation
   * entry point itself parses its overrides is not modelled.
   */
  function DecodeEvalCommand(cmd: seq<string>): (r: Option<EvalRequest>)
    ensures r.Some? ==> |cmd| >= 3 && cmd[1] == EvalScript
  {
    if |cmd| < 2 || cmd[1] != EvalScript then None
    else
      var args := cmd[2..];
      var agent, task, seed := OverrideValue(args, "agent="), OverrideValue(args, "task="), OverrideValue(args, "seed=");
      var dir, episode := OverrideValue(args, "ckpt_dir="), OverrideValue(args, "ckpt_episode=");
      var n := OverrideValue(args, "n_eval_episodes=");
      if agent.None? || task.None? || seed.None? || dir.None? || episode.None? || n.None? then None
      else
        var s, e := ParseInt(seed.value), ParseInt(n.value);
        if s.None? || e.None? then None
        else Some(EvalRequest(agent.value, task.value, s.value, dir.value, episode.value, e.value))
  }

  /**
   * `evaluate_model`: success and the captured output when the subprocess
   * exits with status 0 (`check=True` raises otherwise), failure and no output
   * when it does not.
   */
  function EvaluateModel(run: seq<string> -> Completed, python: string, agentName: string, task: string,
                         seed: int, ckptDir: string, ckptEpisode: string, nEpisodes: int)
    : (r: (bool, Option<string>))
    ensures var completed := run(EvalCommand(python, agentName, task, seed, ckptDir, ckptEpisode, nEpisodes));
      && (r.0 <==> completed.returncode == 0)
      && r.1 == (if r.0 then Some(completed.stdout) else None)
  {
    var completed := run(EvalCommand(python, agentName, task, seed, ckptDir, ckptEpisode, nEpisodes));
    if completed.returncode == 0 then (true, Some(completed.stdout)) else (false, None)
  }

  // ---------------------------------------------------------------------
  // main

  /** One entry of `agents_config`. */
  datatype AgentEntry = AgentEntry(name: string, expDir: string, displayName: string)

  datatype Status = Evaluated | Failed

  /** One row of the comparison table. */
  datatype Row = Row(algorithm: string, checkpoint: string, status: Status)

  const Task: string := "NeedleGrasp-Traj-v0"
  const Seed: int := 1
  const EvalEpisodes: int := 50

  /** The three runs `main` compares, under `<script dir>/exp_local/<task>`. */
  function AgentsConfig(scriptDir: string): seq<AgentEntry> {
    var base := JoinPath(JoinPath(scriptDir, "exp_local"), Task);
    var run := "s" + FormatInt(Seed);
    [ AgentEntry("ddpg", JoinPath(JoinPath(JoinPath(base, "DDPG"), "d0"), run), "DDPG (Baseline)"),
      AgentEntry("double_ddpg", JoinPath(JoinPath(JoinPath(base, "DoubleDDPG"), "d0"), run), "Double DDPG"),
      AgentEntry("dual_ddpg", JoinPath(JoinPath(JoinPath(base, "DualDDPG"), "d0"), run), "Dual DDPG") ]
  }

  /** The evaluation `main` runs for one entry, if it gets that far. */
  function CommandFor(fs: FileSystem, python: string, entry: AgentEntry): Option<seq<string>> {
    if !PathExists(fs, entry.expDir) then None
    else match LatestCheckpoint(fs, entry.expDir)
      case None => None
      case Some(ckpt) =>
        Some(EvalCommand(python, entry.name, Task, Seed, ModelDir(entry.expDir), ckpt, EvalEpisodes))
  }

  /** The row `main` appends for one entry: none when the directory or the checkpoint is missing. */
  function RowFor(fs: FileSystem, python: string, run: seq<string> -> Completed, entry: AgentEntry): Option<Row> {
    if !PathExists(fs, entry.expDir) then None
    else match LatestCheckpoint(fs, entry.expDir)
      case None => None
      case Some(ckpt) =>
        var (success, _) := EvaluateModel(run, python, entry.name, Task, Seed, ModelDir(entry.expDir), ckpt, EvalEpisodes);
        Some(Row(entry.displayName, ckpt, if success then Evaluated else Failed))
  }

  /** The rows of `main` for `entries`, in order. */
  function Rows(fs: FileSystem, python: string, run: seq<string> -> Completed, entries: seq<AgentEntry>): seq<Row> {
    if entries == [] then []
    else
      var init := Rows(fs, python, run, entries[..|entries| - 1]);
      match RowFor(fs, python, run, entries[|entries| - 1])
      case Some(row) => init + [row]
      case None => init
  }

  /** The evaluation commands `main` runs for `entries`, in order. */
  function Commands(fs: FileSystem, python: string, entries: seq<AgentEntry>): seq<seq<string>> {
    if entries == [] then []
    else
      var init := Commands(fs, python, entries[..|entries| - 1]);
      match CommandFor(fs, python, entries[|entries| - 1])
      case Some(cmd) => init + [cmd]
      case None => init
  }

  /** The loop of `main`: skip, or evaluate and record one row per entry. */
  method EvaluateAgents(fs: FileSystem, python: string, run: seq<string> -> Completed, agentsConfig: seq<AgentEntry>)
    returns (results: seq<Row>, commands: seq<seq<string>>)
    ensures results == Rows(fs, python, run, agentsConfig)
    ensures commands == Commands(fs, python, agentsConfig)
  {
    results, commands := [], [];
    for i := 0 to |agentsConfig|
      invariant results == Rows(fs, python, run, agentsConfig[..i])
      invariant commands == Commands(fs, python, agentsConfig[..i])
    {
      var agentConfig := agentsConfig[i];
      assert agentsConfig[..i + 1][..i] == agentsConfig[..i];
      if !PathExists(fs, agentConfig.expDir) {
        continue;
      }
      var ckptEpisode := FindLatestCheckpoint(fs, agentConfig.expDir);
      if ckptEpisode.None? {
        continue;
      }
      var ckptDir := JoinPath(agentConfig.expDir, "model");
      var cmd := EvalCommand(python, agentConfig.name, Task, Seed, ckptDir, ckptEpisode.value, EvalEpisodes);
      var (success, _) := EvaluateModel(run, python, agentConfig.name, Task, Seed, ckptDir, ckptEpisode.value, EvalEpisodes);
      commands := commands + [cmd];
      if success {
        results := results + [Row(agentConfig.displayName, ckptEpisode.value, Evaluated)];
      } else {
        results := results + [Row(agentConfig.displayName, ckptEpisode.value, Failed)];
      }
    }
    assert agentsConfig[..|agentsConfig|] == agentsConfig;
  }

  /** `main`, up to the table it prints and writes. */
  method CompareAll(fs: FileSystem, scriptDir: string, python: string, run: seq<string> -> Completed)
    returns (results: seq<Row>, commands: seq<seq<string>>)
    ensures results == Rows(fs, python, run, AgentsConfig(scriptDir))
    ensures commands == Commands(fs, python, AgentsConfig(scriptDir))
  {
    results, commands := EvaluateAgents(fs, python, run, AgentsConfig(scriptDir));
  }

  // ---------------------------------------------------------------------
  // Properties of the model

  /** The first override for `key` is the one at `k` when no earlier argument starts with `key`. */
  lemma {:induction false} OverrideAt(args: seq<string>, key: string, k: nat, v: string)
    requires k < |args| && args[k] == key + v
    requires forall j :: 0 <= j < k ==> !StartsWith(args[j], key)
    ensures OverrideValue(args, key) == Some(v)
  {
    if k == 0 {
      assert args[0][..|key|] == key;
      assert args[0][|key|..] == v;
    } else {
      assert !StartsWith(args[0], key);
      OverrideAt(args[1..], key, k - 1, v);
    }
  }

  /** A string whose `i`-th character differs from that of `p` does not start with `p`. */
  lemma DiffersAt(s: string, p: string, i: nat)
    requires i < |p| && i < |s| && s[i] != p[i]
    ensures !StartsWith(s, p)
  {
  }

  /** The first three overrides of the command line are found under their own keys. */
  lemma EvalCommandOverridesHead(args: seq<string>, agent: string, task: string, seed: string,
                             ckptDir: string, ckptEpisode: string, nEpisodes: string)
    requires args == ["agent=" + agent, "task=" + task, "seed=" + seed, "ckpt_dir=" + ckptDir,
                      "ckpt_episode=" + ckptEpisode, "n_eval_episodes=" + nEpisodes, "use_wb=False"]
    ensures OverrideValue(args, "agent=") == Some(agent)
    ensures OverrideValue(args, "task=") == Some(task)
    ensures OverrideValue(args, "seed=") == Some(seed)
  {
    OverrideAt(args, "agent=", 0, agent);
    DiffersAt(args[0], "task=", 0);
    OverrideAt(args, "task=", 1, task);
    DiffersAt(args[0], "seed=", 0);
    DiffersAt(args[1], "seed=", 0);
    OverrideAt(args, "seed=", 2, seed);
  }

  /** The last three overrides of the command line are found under their own keys. */
  lemma EvalCommandOverridesTail(args: seq<string>, agent: string, task: string, seed: string,
                             ckptDir: string, ckptEpisode: string, nEpisodes: string)
    requires args == ["agent=" + agent, "task=" + task, "seed=" + seed, "ckpt_dir=" + ckptDir,
                      "ckpt_episode=" + ckptEpisode, "n_eval_episodes=" + nEpisodes, "use_wb=False"]
    ensures OverrideValue(args, "ckpt_dir=") == Some(ckptDir)
    ensures OverrideValue(args, "ckpt_episode=") == Some(ckptEpisode)
    ensures OverrideValue(args, "n_eval_episodes=") == Some(nEpisodes)
  {
    DiffersAt(args[0], "ckpt_dir=", 0);
    DiffersAt(args[1], "ckpt_dir=", 0);
    DiffersAt(args[2], "ckpt_dir=", 0);
    OverrideAt(args, "ckpt_dir=", 3, ckptDir);
    DiffersAt(args[0], "ckpt_episode=", 0);
    DiffersAt(args[1], "ckpt_episode=", 0);
    DiffersAt(args[2], "ckpt_episode=", 0);
    DiffersAt(args[3], "ckpt_episode=", 5);
    OverrideAt(args, "ckpt_episode=", 4, ckptEpisode);
    DiffersAt(args[0], "n_eval_episodes=", 0);
    DiffersAt(args[1], "n_eval_episodes=", 0);
    DiffersAt(args[2], "n_eval_episodes=", 0);
    DiffersAt(args[3], "n_eval_episodes=", 0);
    DiffersAt(args[4], "n_eval_episodes=", 0);
    OverrideAt(args, "n_eval_episodes=", 5, nEpisodes);
  }

  /** The key-lookup decoder reads back every value `evaluate_model` passed, the agent name lower-cased. */
  lemma EvalCommandRoundTrip(python: string, agentName: string, task: string, seed: int,
                             ckptDir: string, ckptEpisode: string, nEpisodes: int)
    ensures DecodeEvalCommand(EvalCommand(python, agentName, task, seed, ckptDir, ckptEpisode, nEpisodes))
      == Some(EvalRequest(Lower(agentName), task, seed, ckptDir, ckptEpisode, nEpisodes))
  {
    var cmd := EvalCommand(python, agentName, task, seed, ckptDir, ckptEpisode, nEpisodes);
    var args := cmd[2..];
    EvalCommandOverridesHead(args, Lower(agentName), task, FormatInt(seed), ckptDir, ckptEpisode, FormatInt(nEpisodes));
    EvalCommandOverridesTail(args, Lower(agentName), task, FormatInt(seed), ckptDir, ckptEpisode, FormatInt(nEpisodes));
    ParseFormatted(seed);
    ParseFormatted(nEpisodes);
  }

  /** A row carries the entry's display name, the resolved checkpoint, and "Evaluated" exactly on exit status 0. */
  lemma RowForSpec(fs: FileSystem, python: string, run: seq<string> -> Completed, entry: AgentEntry)
    ensures RowFor(fs, python, run, entry).Some? <==>
      PathExists(fs, entry.expDir) && LatestCheckpoint(fs, entry.expDir).Some?
    ensures RowFor(fs, python, run, entry).Some? <==> CommandFor(fs, python, entry).Some?
    ensures RowFor(fs, python, run, entry).Some? ==>
      var row := RowFor(fs, python, run, entry).value;
      && row.algorithm == entry.displayName
      && row.checkpoint == LatestCheckpoint(fs, entry.expDir).value
      && (row.status == Evaluated <==> run(CommandFor(fs, python, entry).value).returncode == 0)
  {
  }

  /**
   * Each configured agent yields at most one row, in configuration order:
   * `idx` lists, increasingly, the entries that produced a row, and every
   * entry that can produce one is listed.
   */
  lemma {:induction false} RowsFollowConfig(fs: FileSystem, python: string, run: seq<string> -> Completed,
                                            entries: seq<AgentEntry>) returns (idx: seq<nat>)
    ensures |idx| == |Rows(fs, python, run, entries)| <= |entries|
    ensures forall k :: 0 <= k < |idx| ==>
      idx[k] < |entries| && RowFor(fs, python, run, entries[idx[k]]) == Some(Rows(fs, python, run, entries)[k])
    ensures forall k, l :: 0 <= k < l < |idx| ==> idx[k] < idx[l]
    ensures forall i :: 0 <= i < |entries| && RowFor(fs, python, run, entries[i]).Some? ==> i in idx
  {
    idx := [];
    if entries != [] {
      var n := |entries|;
      var init := entries[..n - 1];
      var idx' := RowsFollowConfig(fs, python, run, init);
      assert forall i :: 0 <= i < n - 1 ==> init[i] == entries[i];
      if RowFor(fs, python, run, entries[n - 1]).Some? {
        idx := idx' + [n - 1];
      } else {
        idx := idx';
      }
    }
  }

  /** Every row comes with exactly one evaluation command, and its status reports that command's exit. */
  lemma {:induction false} RowsMatchCommands(fs: FileSystem, python: string, run: seq<string> -> Completed,
                                             entries: seq<AgentEntry>)
    ensures |Rows(fs, python, run, entries)| == |Commands(fs, python, entries)|
    ensures forall k :: 0 <= k < |Commands(fs, python, entries)| ==>
      (Rows(fs, python, run, entries)[k].status == Evaluated <==> run(Commands(fs, python, entries)[k]).returncode == 0)
  {
    if entries != [] {
      var init := entries[..|entries| - 1];
      RowsMatchCommands(fs, python, run, init);
      RowForSpec(fs, python, run, entries[|entries| - 1]);
    }
  }
}
