# Checkpoint resolution and agent registry of the RL training scripts

This project models two self-contained pieces of the reinforcement-learning
tooling of a surgical-guidance repository, written in Python, and proves
properties of the model in Dafny.

* **Checkpoint resolution and the comparison driver**
  (`compare_results.py`). `find_latest_checkpoint` decides which checkpoint of
  an experiment directory gets evaluated. It lists `model/weights_ep*.pth` and
  reads the episode number after the last `_ep` of each file stem. Names that
  `int()` rejects are skipped. It returns the name of the first
  highest-episode file without `.pth`, or else falls back to `"best"`, `None`
  or `"latest"`. `evaluate_model` builds the argument vector of the
  evaluation subprocess. `main` walks the configured runs and records one
  `Evaluated`/`Failed` row per run it could evaluate.
* **Agent registry** (`agents/factory.py`). `AGENTS` maps variant names to
  agent classes: ten fixed entries, plus `VisDEX` and `E2E` when their
  optional imports succeeded. `make_agent` looks up `cfg.name` and calls that
  class with `env_params`, `sampler` and `agent_cfg=cfg`.

## Layout

| file | module | what |
|---|---|---|
| `wrappers.dfy` | `Wrappers` | `Option`, standing in for Python's `None` |
| `pytext.dfy` | `PyText` | `str.find`, `str.split`, `str.join`, `str.replace`, `str.rfind`, `PurePath.stem`, ASCII `str.lower`, and lemmas about them |
| `pyint.dfy` | `PyInt` | `int(text)` in base 10 (whitespace, sign, `_` separators) and `str(n)`, with `int(str(n)) == n` |
| `checkpoints.dfy` | `Checkpoints` | `find_latest_checkpoint`: a reference function `LatestCheckpoint`, the method with its loop, and the properties |
| `compare_results.dfy` | `CompareResults` | the argument vector of `evaluate_model`, the evaluation outcome, and the row loop of `main` |
| `factory.dfy` | `AgentFactory` | the `AGENTS` registry as a class built in place, the `make_agent` lookup, and the guard that never fires |

The filesystem is an input value, `FileSystem`: the set of existing paths
and each directory's entries in listing order. The subprocess is an input
function from the argument vector to its exit status and standard output.
Agent classes are opaque tags of the `Variant` datatype. Whether each
optional import succeeded is a boolean input.

Two behaviours of the code are worth naming:

* When checkpoint files match the pattern but none of their episode numbers
  parses, `find_latest_checkpoint` returns the literal string `"latest"`,
  not the name of any checkpoint (compare_results.py:71).
* The optional variants are registered only when their imports succeed,
  detected with `try`/`except ImportError` (factory.py:15-23, 39-42). The
  model takes the outcome of each import as a boolean input.

## Model

| member | source | states |
|---|---|---|
| `PyText.Find` | VPPV/Training/policy_learning/rl/compare_results.py:62 | the index where `str.split` cuts: an occurrence of the separator with none before it; `None` exactly when the separator does not occur |
| `PyText.Split` | VPPV/Training/policy_learning/rl/compare_results.py:62 | `s.split(sep)` for a non-empty separator: the pieces between the occurrences `Find` reports, scanning left to right without overlap; there is always at least one piece |
| `PyText.JoinSplit` | VPPV/Training/policy_learning/rl/compare_results.py:62 | joining the pieces of `s.split(sep)` with `sep` gives `s` back: splitting loses no text |
| `PyText.SplitPiecesAreFree` | VPPV/Training/policy_learning/rl/compare_results.py:62 | no piece of `s.split(sep)` contains `sep` |
| `PyText.LastPiece` | VPPV/Training/policy_learning/rl/compare_results.py:62 | `s.split(sep)[-1]`, the last of those pieces; its properties are stated by `PyText.LastPieceShape` and `PyText.LastPieceAfter` |
| `PyText.LastPieceShape` | VPPV/Training/policy_learning/rl/compare_results.py:62 | `s.split(sep)[-1]` is a suffix of `s` without `sep`; it is shorter than `s` exactly when `sep` occurs, and then the text before it ends with `sep` |
| `PyText.LastPieceAfter` | VPPV/Training/policy_learning/rl/compare_results.py:62 | the last piece of `pre + sep + t` is `t` when `t` holds neither `sep` nor its last character |
| `PyText.RFind` | VPPV/Training/policy_learning/rl/compare_results.py:62 | `rfind('.')`, the search behind `Path.stem`: the last index holding the character, no later one holds it, `None` when it is absent |
| `PyText.Stem` | VPPV/Training/policy_learning/rl/compare_results.py:62 | `Path(name).stem`: a prefix of the name; when shorter, it stops at a dot that is neither the first nor the last character (the last dot, as `PyText.RFind` finds it) |
| `PyText.StemOfSuffixed` | VPPV/Training/policy_learning/rl/compare_results.py:62 | the stem of a name ending in a dot-led suffix without further dots is the name minus that suffix |
| `PyText.Replace` | VPPV/Training/policy_learning/rl/compare_results.py:69 | `s.replace(pat, rep)`: `s` split at every occurrence of `pat` and joined with `rep`; no function contract, its properties are `PyText.ReplaceAbsent`, `PyText.ReplaceAfterFree` and `PyText.StripSuffix` |
| `PyText.ReplaceAbsent` | VPPV/Training/policy_learning/rl/compare_results.py:69 | `replace` leaves a string that does not contain the pattern unchanged |
| `PyText.ReplaceAfterFree` | VPPV/Training/policy_learning/rl/compare_results.py:69 | in `a + pat + rest` with `a` free of `pat`, `replace(pat, '')` keeps `a` and goes on removing in `rest` |
| `PyText.StripSuffix` | VPPV/Training/policy_learning/rl/compare_results.py:69 | removing `.pth` from `stem + ".pth"` gives `stem` when `stem` does not contain `.pth` |
| `PyText.Lower` | VPPV/Training/policy_learning/rl/compare_results.py:21 | `agent_name.lower()`: same length, every character mapped to lower case |
| `PyInt.ParseInt` | VPPV/Training/policy_learning/rl/compare_results.py:62 | `int(text)` in base 10: surrounding ASCII whitespace (tab, line feed, vertical tab, form feed, carriage return, space) stripped, an optional sign, digits with single `_` separators between them, `None` where Python raises `ValueError` on such text (the digit-count limit aside, see below); no function contract, its partners are the lemmas below and the round trip `PyInt.ParseFormatted` |
| `PyInt.ParseDigits` | VPPV/Training/policy_learning/rl/compare_results.py:62 | `int()` reads a non-empty decimal digit string as the number it denotes |
| `PyInt.ParseNegatedDigits` | VPPV/Training/policy_learning/rl/compare_results.py:62 | `int()` reads a minus sign followed by digits as the negated number |
| `PyInt.RejectsForeignChar` | VPPV/Training/policy_learning/rl/compare_results.py:61-65 | `int()` raises, so the checkpoint name is skipped, when the text holds any character that is not whitespace, a digit, a sign or `_` (the `final` of `10_final`, the separators 0x1C-0x1F) |
| `PyInt.RejectsWithoutDigit` | VPPV/Training/policy_learning/rl/compare_results.py:61-65 | `int()` raises on text without a single digit, such as the empty piece after a trailing `_ep` or `_best` |
| `PyInt.ParseIgnoresPadding` | VPPV/Training/policy_learning/rl/compare_results.py:62 | whitespace before and after the text does not change what `int()` reads |
| `PyInt.ParsePlusDigits` | VPPV/Training/policy_learning/rl/compare_results.py:62 | a leading `+` before digits reads as the digits alone |
| `PyInt.ParseUnderscore` | VPPV/Training/policy_learning/rl/compare_results.py:62 | a single `_` between two runs of digits is ignored |
| `PyInt.StripSlice` | VPPV/Training/policy_learning/rl/compare_results.py:62 | the text `int()` parses is a slice of the input with only whitespace cut off on either side |
| `PyInt.FormatInt` | VPPV/Training/policy_learning/rl/compare_results.py:23-26 | `str(n)` as the f-strings print it: never empty; its characters are stated by `PyInt.FormatIntChars`, its value by `PyInt.FormatNatValue` and `PyInt.ParseFormatted` |
| `PyInt.FormatNatValue` | VPPV/Training/policy_learning/rl/compare_results.py:23-26 | the digits `str(n)` prints for `n >= 0` denote `n` |
| `PyInt.FormatIntChars` | VPPV/Training/policy_learning/rl/compare_results.py:23-26 | `str(n)` is made of digits, with a minus sign only in front |
| `PyInt.ParseFormatted` | VPPV/Training/policy_learning/rl/compare_results.py:62 | `int(str(n)) == n` for every integer of the model, with no limit on the number of digits |
| `PyInt.FormatInjective` | VPPV/Training/policy_learning/rl/compare_results.py:23-26 | distinct integers print as distinct `seed=` / `n_eval_episodes=` values |
| `Checkpoints.MatchesCheckpointPattern` | VPPV/Training/policy_learning/rl/compare_results.py:50 | the glob `weights_ep*.pth`: the name starts with `weights_ep`, ends with `.pth`, and the two do not overlap |
| `Checkpoints.GlobCheckpoints` | VPPV/Training/policy_learning/rl/compare_results.py:50 | the names `glob("weights_ep*.pth")` yields: every one matches the pattern and is listed, and every listed name that matches is yielded |
| `Checkpoints.EpisodeOf` | VPPV/Training/policy_learning/rl/compare_results.py:62 | `int(ckpt.stem.split('_ep')[-1])`, with `None` where `int` raises; what it yields on checkpoint names is stated by `Checkpoints.EpisodeTextAfterLastEp` and `Checkpoints.WeightsEpisodeText` |
| `Checkpoints.ParsedEpisodes` | VPPV/Training/policy_learning/rl/compare_results.py:58-65 | the `episodes` list: `(ep_num, name)` for each matching name whose episode parses, in listing order, the others skipped; stated by `Checkpoints.ParsedEpisodesEmpty` and `Checkpoints.MaxPicksFirstMaximal` |
| `Checkpoints.MaxIndex` | VPPV/Training/policy_learning/rl/compare_results.py:68 | the pair `max(..., key=lambda x: x[0])` picks: its episode is maximal and every earlier pair has a smaller one (the first maximum wins) |
| `Checkpoints.LatestCheckpoint` | VPPV/Training/policy_learning/rl/compare_results.py:44-71 | reference definition of `find_latest_checkpoint`; its properties are `Checkpoints.Fallbacks`, `Checkpoints.LatestIsFirstMaximal` and the lemmas that follow |
| `Checkpoints.FindLatestCheckpoint` | VPPV/Training/policy_learning/rl/compare_results.py:44-71 | the function with its collecting loop returns what `LatestCheckpoint`, the reference definition, says |
| `Checkpoints.ParsedEpisodesEmpty` | VPPV/Training/policy_learning/rl/compare_results.py:58-67 | the `episodes` list ends up empty exactly when no checkpoint name parses |
| `Checkpoints.MaxPicksFirstMaximal` | VPPV/Training/policy_learning/rl/compare_results.py:58-69 | the pair `max` selects is the first checkpoint name, in listing order, whose episode number is maximal |
| `Checkpoints.LatestIsFirstMaximal` | VPPV/Training/policy_learning/rl/compare_results.py:67-69 | with at least one parsable name, the result is the first name of maximal episode with `.pth` removed |
| `Checkpoints.Fallbacks` | VPPV/Training/policy_learning/rl/compare_results.py:46-71 | `None` exactly when `model/` is missing, or no name matches and `best.pth` is missing; `"best"` exactly when `model/` exists, no name matches and `best.pth` exists; `"latest"` exactly when names match and none parses |
| `Checkpoints.NeverNoneWithCheckpoints` | VPPV/Training/policy_learning/rl/compare_results.py:50-71 | once some entry matches `weights_ep*.pth`, the result is never `None` |
| `Checkpoints.ResolvedNameKeepsPrefix` | VPPV/Training/policy_learning/rl/compare_results.py:69 | a resolved checkpoint name still starts with `weights_ep`, so it is never `"best"` or `"latest"` |
| `Checkpoints.SplitAtLastEp` | VPPV/Training/policy_learning/rl/compare_results.py:62 | a stem containing `_ep` is the text up to and including its last `_ep`, then the text after it |
| `Checkpoints.EpisodeTextAfterLastEp` | VPPV/Training/policy_learning/rl/compare_results.py:62 | the episode number of a matching name is `int` of the text after the last `_ep` of the name without `.pth` |
| `Checkpoints.WeightsEpisodeText` | VPPV/Training/policy_learning/rl/compare_results.py:62 | the episode text of `weights_ep<n>.pth` is `str(n)` |
| `Checkpoints.WeightsNameResolves` | VPPV/Training/policy_learning/rl/compare_results.py:69 | `weights_ep<n>.pth` with `.pth` removed is `weights_ep<n>` |
| `Checkpoints.WeightsNameRoundTrip` | VPPV/Training/policy_learning/rl/compare_results.py:58-69 | `weights_ep<n>.pth` matches the pattern, parses to `n` and resolves to `weights_ep<n>` |
| `Checkpoints.LatestOfWeightsNames` | VPPV/Training/policy_learning/rl/compare_results.py:58-69 | when every checkpoint is named `weights_ep<n>.pth`, the run resolves to the largest `n` |
| `Checkpoints.InnerPthEpisode` | VPPV/Training/policy_learning/rl/compare_results.py:62 | `weights_ep.pth_ep<n>.pth` matches and parses to `n`: the last `_ep` decides |
| `Checkpoints.InnerPthResolves` | VPPV/Training/policy_learning/rl/compare_results.py:69 | removing `.pth` from `weights_ep.pth_ep<n>.pth` removes both occurrences |
| `Checkpoints.ResolvedNameDropsEveryPth` | VPPV/Training/policy_learning/rl/compare_results.py:69 | such a name parses and resolves to `weights_ep_ep<n>`, which is not its stem: `replace` removes every `.pth`, not only the suffix |
| `CompareResults.EvalCommand` | VPPV/Training/policy_learning/rl/compare_results.py:19-28 | the argument vector has nine entries: the interpreter, `evaluate_model.py`, then the overrides keyed `agent=`, `task=`, `seed=`, `ckpt_dir=`, `ckpt_episode=` and `n_eval_episodes=` in that order, and `use_wb=False` last |
| `CompareResults.EvalCommandRoundTrip` | VPPV/Training/policy_learning/rl/compare_results.py:19-28 | reading the overrides back by key gives the lower-cased agent name, the task, the seed, the checkpoint directory, the checkpoint name and the episode count, each unchanged under its own key |
| `CompareResults.DecodeEvalCommand` | VPPV/Training/policy_learning/rl/compare_results.py:19-28 | models no source line: a key-lookup decoder of the vector those lines build, there only to state the round trip; it decodes nothing unless the script name is in place |
| `CompareResults.EvaluateModel` | VPPV/Training/policy_learning/rl/compare_results.py:30-41 | success exactly when the subprocess exits with status 0; the captured output is returned on success and `None` on failure |
| `CompareResults.AgentsConfig` | VPPV/Training/policy_learning/rl/compare_results.py:83-99 | `agents_config`: `ddpg`, `double_ddpg` and `dual_ddpg` with their run directories `<base>/<Algo>/d0/s1` and display names; data, no contract |
| `CompareResults.CommandFor` | VPPV/Training/policy_learning/rl/compare_results.py:121-140 | the evaluation command `main` runs for one entry: none when the run directory is missing or no checkpoint resolves; stated by `CompareResults.RowForSpec` |
| `CompareResults.RowFor` | VPPV/Training/policy_learning/rl/compare_results.py:121-153 | the row `main` records for one entry; stated by `CompareResults.RowForSpec` |
| `CompareResults.Rows` | VPPV/Training/policy_learning/rl/compare_results.py:116-153 | reference definition of the collected rows, one entry at a time in configuration order; stated by `CompareResults.RowsFollowConfig` and `CompareResults.RowsMatchCommands` |
| `CompareResults.Commands` | VPPV/Training/policy_learning/rl/compare_results.py:116-140 | reference definition of the evaluation commands run, in configuration order; stated by `CompareResults.RowsMatchCommands` |
| `CompareResults.EvaluateAgents` | VPPV/Training/policy_learning/rl/compare_results.py:116-153 | the loop collects exactly the rows and runs exactly the commands of the reference definitions `Rows` and `Commands` |
| `CompareResults.CompareAll` | VPPV/Training/policy_learning/rl/compare_results.py:74-153 | `main` evaluates the three configured runs (DDPG, DoubleDDPG, DualDDPG) and yields their rows |
| `CompareResults.RowForSpec` | VPPV/Training/policy_learning/rl/compare_results.py:121-153 | an entry yields a row exactly when its directory exists and a checkpoint resolves; the row has its display name and that checkpoint, with `Evaluated` exactly when the evaluation exits with status 0 |
| `CompareResults.RowsFollowConfig` | VPPV/Training/policy_learning/rl/compare_results.py:116-153 | at most one row per configured agent, in configuration order, and every agent that can yield a row does |
| `CompareResults.RowsMatchCommands` | VPPV/Training/policy_learning/rl/compare_results.py:137-153 | one evaluation command per row, and each row reports its own command's exit status |
| `AgentFactory.KeyOf` | VPPV/Training/policy_learning/rl/agents/factory.py:26-42 | the key each class is registered under; `E2E` for the end-to-end agent; stated by `AgentFactory.KeyRoundTrip` and `AgentFactory.KeyOfInjective` |
| `AgentFactory.Registered` | VPPV/Training/policy_learning/rl/agents/factory.py:26-42 | reference definition of the finished registry: the class whose key the name is, when that class is available; stated by `AgentFactory.RegisteredIsKeyInverse` and `AgentFactory.RegistryKeys` |
| `AgentFactory.Lookup` | VPPV/Training/policy_learning/rl/agents/factory.py:46-49 | `cfg.name in AGENTS.keys()` and `AGENTS[cfg.name]`: a class exactly when the name is a key, and then the class stored under it |
| `AgentFactory.Registry.constructor` | VPPV/Training/policy_learning/rl/agents/factory.py:15-42 | the built `AGENTS` answers every lookup as the reference `Registered` does: each available class under its own key, nothing else |
| `AgentFactory.StandardRegistry` | VPPV/Training/policy_learning/rl/agents/factory.py:26-37 | the ten fixed entries are the registry when neither optional import succeeded |
| `AgentFactory.AddVisDEX` | VPPV/Training/policy_learning/rl/agents/factory.py:39-40 | inserting `VisDEX` turns the registry without it into the one with it |
| `AgentFactory.AddE2E` | VPPV/Training/policy_learning/rl/agents/factory.py:41-42 | inserting `E2E` turns the registry without it into the one with it |
| `AgentFactory.KeyRoundTrip` | VPPV/Training/policy_learning/rl/agents/factory.py:26-42 | every class is found again from the key it is registered under |
| `AgentFactory.KeyOfVariantOfKey` | VPPV/Training/policy_learning/rl/agents/factory.py:26-42 | a key names at most one class, and is that class's key |
| `AgentFactory.KeyOfInjective` | VPPV/Training/policy_learning/rl/agents/factory.py:26-42 | distinct classes have distinct keys |
| `AgentFactory.RegisteredIsKeyInverse` | VPPV/Training/policy_learning/rl/agents/factory.py:26-42 | a name looks up class `v` exactly when `v` is available and the name is its key: exact string match |
| `AgentFactory.RegistryKeys` | VPPV/Training/policy_learning/rl/agents/factory.py:26-42 | DDPG, DDPGBC, CoL, DEX, SAC, SQIL, AMP, AWAC, DoubleDDPG and DualDDPG are always keys; `VisDEX` and `E2E` are keys exactly when their imports succeeded; no other name is a key |
| `AgentFactory.PyAssert` | VPPV/Training/policy_learning/rl/agents/factory.py:47 | `assert` passes exactly when its condition holds |
| `AgentFactory.Registry.MakeAgent` | VPPV/Training/policy_learning/rl/agents/factory.py:45-53 | never raises; returns an agent exactly when the name is registered, built from that name's class with `env_params`, `sampler` and `cfg` passed through; reads the registry and changes nothing |
| `AgentFactory.MakeAgentBuilt` | VPPV/Training/policy_learning/rl/agents/factory.py:45-53 | against the registry as built, `make_agent` constructs class `v` exactly when `v` is available and registered under the configured name |
| `AgentFactory.UnknownNameReturnsNone` | VPPV/Training/policy_learning/rl/agents/factory.py:46-47 | an unregistered name does not fail: `make_agent` returns `None` |
| `AgentFactory.Registry.MakeAgentChecked` | VPPV/Training/policy_learning/rl/agents/factory.py:46-47 | corrected `make_agent`: raises with "Agent is not supported: <name>" exactly when the name is unregistered, otherwise constructs as above |
| `AgentFactory.UnknownNameRaisesWhenChecked` | VPPV/Training/policy_learning/rl/agents/factory.py:46-47 | with the corrected guard an unregistered name raises the message |

## Left out

- Real filesystem access (`Path.exists`, `Path.glob`) is replaced by the `FileSystem` input. The listing order is whatever the input says, as it is whatever the OS returns.
- Paths are joined as `dir + "/" + name`. Normalisation, symbolic links, trailing separators and case-insensitive filesystems are not modelled.
- `Path.glob` yields directories as well as files. The model does not tell them apart: a listed entry is a candidate whenever its name matches.
- `int()` is modelled for ASCII only: non-ASCII Unicode digits and whitespace (such as U+00A0), which Python also accepts, are not.
- PyInt.ParseInt: Python's limit on the number of digits of a decimal string (4300 by default, set by `sys.set_int_max_str_digits`), past which `int()` raises `ValueError`, is not modelled; the model parses any length. The text parsed at compare_results.py:62 comes from a file name, which cannot get near the limit.
- PyInt.FormatInt: the same limit on `str(n)` is not modelled, so `PyInt.ParseFormatted` holds for integers of any size. The values formatted at compare_results.py:23 and 26 are the constants 1 and 50.
- `str.lower()` is modelled for ASCII letters only.
- `subprocess.run` is the `run` parameter. Exceptions other than a non-zero exit, such as a missing interpreter, are not modelled. Neither are `cwd` and text decoding.
- The lines `evaluate_model` prints (compare_results.py:15-17, 35-37, 40) are output only and are not modelled.
- The defaults `ckpt_episode='latest'` and `n_episodes=50` of `evaluate_model` are not modelled, because `main` always passes both.
- Not modelled in `main`: the banner printing, `os.chdir`, the pandas table and the write of `comparison_results.txt` (compare_results.py:103-113, 155-183). The model returns the rows and the evaluation commands instead.
- The agent classes' constructors (agents/ddpg.py and the others) are not part of this model. `make_agent` returns an `Agent` record naming the class and the three keyword arguments.
- Not part of this model: the training core (replay store, actor-critic updates, target soft-updates, the trainer loop). It lives in agents/*.py and trainers/rl_trainer.py, outside the two files modelled here.
- Also outside this model: plot_results.py, compare_algorithms.py, evaluate_model.py, generate_video.py and generate_architecture_diagrams.py. They do plotting, subprocess orchestration with wall-clock timing, a thin entry point over the trainer, video rendering and diagram drawing.
- Checkpoints.GlobCheckpoints: its own contract states membership in both directions but not that listing order is kept. Order follows from its definition as a filter, which `FindLatestCheckpoint` and the first-maximum lemmas use.

## Findings

| source | as written | input that shows it | evidently intended | confidence | as-written member | corrected member |
|---|---|---|---|---|---|---|
| VPPV/Training/policy_learning/rl/agents/factory.py:46-47 | an unregistered name reaches `assert 'Agent is not supported: %s' % cfg.name`; the asserted value is a non-empty string, which is always true, so `make_agent` falls through and returns `None` | `cfg.name == "TD3"`, or any name that is not a registry key | raise `AssertionError("Agent is not supported: TD3")` | high; not executed | `AgentFactory.UnknownNameReturnsNone` | `AgentFactory.Registry.MakeAgentChecked` |
