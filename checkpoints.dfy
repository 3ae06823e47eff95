/**
 * `find_latest_checkpoint` of compare_results.py: which checkpoint of an
 * experiment directory gets evaluated. The filesystem is an input value.
 */
module Checkpoints {
  import opened Wrappers
  import opened PyText
  import opened PyInt

  /**
   * The part of the filesystem the script observes: the paths that exist
   * and, for each directory, its entry names in the order the OS lists them.
   */
  datatype FileSystem = FileSystem(existing: set<string>, listings: map<string, seq<string>>)

  predicate PathExists(fs: FileSystem, path: string) {
    path in fs.existing
  }

  function ListDir(fs: FileSystem, dir: string): seq<string> {
    if dir in fs.listings then fs.listings[dir] else []
  }

  /** `Path(dir) / name`, for a directory path without a trailing separator. */
  function JoinPath(dir: string, name: string): string {
    dir + "/" + name
  }

  const CheckpointPrefix: string := "weights_ep"
  const CheckpointSuffix: string := ".pth"

  /** The name matches the glob pattern `weights_ep*.pth`. */
  predicate MatchesCheckpointPattern(name: string) {
    |name| >= |CheckpointPrefix| + |CheckpointSuffix|
    && StartsWith(name, CheckpointPrefix) && EndsWith(name, CheckpointSuffix)
  }

  /** The entries `glob("weights_ep*.pth")` yields, in listing order. */
  function GlobCheckpoints(entries: seq<string>): (r: seq<string>)
    ensures forall k :: 0 <= k < |r| ==> MatchesCheckpointPattern(r[k]) && r[k] in entries
    ensures forall k :: 0 <= k < |entries| && MatchesCheckpointPattern(entries[k]) ==> entries[k] in r
  {
    if entries == [] then []
    else
      var init := GlobCheckpoints(entries[..|entries| - 1]);
      var last := entries[|entries| - 1];
      assert forall k :: 0 <= k < |entries| - 1 ==> entries[k] == entries[..|entries| - 1][k];
      if MatchesCheckpointPattern(last) then init + [last] else init
  }

  /** `int(Path(name).stem.split('_ep')[-1])`, `None` where `int` raises. */
  function EpisodeOf(name: string): Option<int> {
    ParseInt(LastPiece(Stem(name), "_ep"))
  }

  /**
   * The `(ep_num, name)` pairs the loop appends, in listing order, skipping
   * names that do not parse; `episodeOf` is the parse (`EpisodeOf` in the
   * script, a parameter here so that the lemmas below need not unfold it).
   */
  function ParsedEpisodes(names: seq<string>, episodeOf: string -> Option<int>): seq<(int, string)> {
    if names == [] then []
    else
      var init := ParsedEpisodes(names[..|names| - 1], episodeOf);
      var last := names[|names| - 1];
      match episodeOf(last)
      case Some(e) => init + [(e, last)]
      case None => init
  }

  /**
   * The position `max(episodes, key=lambda x: x[0])` picks: Python's `max`
   * replaces its candidate only on a strictly larger key, so the first of
   * several equal maxima wins.
   */
  function MaxIndex(eps: seq<(int, string)>): (k: nat)
    requires |eps| > 0
    ensures k < |eps|
    ensures forall j :: 0 <= j < |eps| ==> eps[j].0 <= eps[k].0
    ensures forall j :: 0 <= j < k ==> eps[j].0 < eps[k].0
  {
    if |eps| == 1 then 0
    else
      var k := MaxIndex(eps[..|eps| - 1]);
      if eps[|eps| - 1].0 > eps[k].0 then |eps| - 1 else k
  }

  function ModelDir(expDir: string): string {
    JoinPath(expDir, "model")
  }

  /** The checkpoint files of the run, in listing order. */
  function CheckpointNames(fs: FileSystem, expDir: string): seq<string> {
    GlobCheckpoints(ListDir(fs, ModelDir(expDir)))
  }

  predicate BestExists(fs: FileSystem, expDir: string) {
    PathExists(fs, JoinPath(ModelDir(expDir), "best.pth"))
  }

  /** What `find_latest_checkpoint(exp_dir)` returns. */
  function LatestCheckpoint(fs: FileSystem, expDir: string): Option<string> {
    if !PathExists(fs, ModelDir(expDir)) then None
    else
      var checkpoints := CheckpointNames(fs, expDir);
      if checkpoints == [] then
        if BestExists(fs, expDir) then Some("best") else None
      else
        var episodes := ParsedEpisodes(checkpoints, EpisodeOf);
        if episodes == [] then Some("latest")
        else Some(Replace(episodes[MaxIndex(episodes)].1, CheckpointSuffix, ""))
  }

  /** `find_latest_checkpoint`, with its collecting loop. */
  method FindLatestCheckpoint(fs: FileSystem, expDir: string) returns (r: Option<string>)
    ensures r == LatestCheckpoint(fs, expDir)
  {
    var modelDir := JoinPath(expDir, "model");
    if !PathExists(fs, modelDir) {
      return None;
    }
    var checkpoints := GlobCheckpoints(ListDir(fs, modelDir));
    if checkpoints == [] {
      var bestCkpt := JoinPath(modelDir, "best.pth");
      if PathExists(fs, bestCkpt) {
        return Some("best");
      }
      return None;
    }
    var episodes: seq<(int, string)> := [];
    var i := 0;
    while i < |checkpoints|
      invariant 0 <= i <= |checkpoints|
      invariant episodes == ParsedEpisodes(checkpoints[..i], EpisodeOf)
    {
      var ckpt := checkpoints[i];
      assert checkpoints[..i + 1][..i] == checkpoints[..i];
      match EpisodeOf(ckpt) {
        case Some(epNum) =>
          episodes := episodes + [(epNum, ckpt)];
        case None =>
      }
      i := i + 1;
    }
    assert checkpoints[..i] == checkpoints;
    if episodes != [] {
      var latest := episodes[MaxIndex(episodes)];
      return Some(Replace(latest.1, ".pth", ""));
    }
    return Some("latest");
  }

  // ---------------------------------------------------------------------
  // Properties of the model

  /**
   * `names[i]` carries an episode number, no name carries a larger one, and
   * no earlier name carries the same one.
   */
  predicate IsFirstMaximal(names: seq<string>, episodeOf: string -> Option<int>, i: int) {
    && 0 <= i < |names|
    && episodeOf(names[i]).Some?
    && (forall j :: 0 <= j < |names| && episodeOf(names[j]).Some? ==>
          episodeOf(names[j]).value <= episodeOf(names[i]).value)
    && (forall j :: 0 <= j < i && episodeOf(names[j]).Some? ==>
          episodeOf(names[j]).value < episodeOf(names[i]).value)
  }

  /** The loop collects nothing exactly when no name parses. */
  lemma {:induction false} ParsedEpisodesEmpty(names: seq<string>, episodeOf: string -> Option<int>)
    ensures ParsedEpisodes(names, episodeOf) == [] <==>
      forall j :: 0 <= j < |names| ==> episodeOf(names[j]).None?
  {
    if names != [] {
      var init := names[..|names| - 1];
      ParsedEpisodesEmpty(init, episodeOf);
      assert forall j :: 0 <= j < |init| ==> init[j] == names[j];
    }
  }

  /** The pair `max` selects is the first name with the largest episode number. */
  lemma {:induction false} MaxPicksFirstMaximal(names: seq<string>, episodeOf: string -> Option<int>) returns (i: nat)
    requires ParsedEpisodes(names, episodeOf) != []
    ensures IsFirstMaximal(names, episodeOf, i)
    ensures var p := ParsedEpisodes(names, episodeOf);
      p[MaxIndex(p)] == (episodeOf(names[i]).value, names[i])
  {
    var n := |names|;
    var init := names[..n - 1];
    var last := names[n - 1];
    var p, p' := ParsedEpisodes(names, episodeOf), ParsedEpisodes(init, episodeOf);
    assert forall j :: 0 <= j < n - 1 ==> init[j] == names[j];
    match episodeOf(last)
    case None =>
      assert p == p';
      i := MaxPicksFirstMaximal(init, episodeOf);
    case Some(e) =>
      assert p == p' + [(e, last)];
      if p' == [] {
        ParsedEpisodesEmpty(init, episodeOf);
        i := n - 1;
      } else {
        var i' := MaxPicksFirstMaximal(init, episodeOf);
        assert p[..|p| - 1] == p';
        if e > episodeOf(init[i']).value {
          i := n - 1;
        } else {
          i := i';
        }
      }
  }

  /**
   * With at least one parsable checkpoint name, the result is the first
   * name of maximal episode with every ".pth" removed.
   */
  lemma LatestIsFirstMaximal(fs: FileSystem, expDir: string) returns (i: nat)
    requires PathExists(fs, ModelDir(expDir))
    requires ParsedEpisodes(CheckpointNames(fs, expDir), EpisodeOf) != []
    ensures IsFirstMaximal(CheckpointNames(fs, expDir), EpisodeOf, i)
    ensures LatestCheckpoint(fs, expDir) == Some(Replace(CheckpointNames(fs, expDir)[i], ".pth", ""))
  {
    i := MaxPicksFirstMaximal(CheckpointNames(fs, expDir), EpisodeOf);
  }

  /** A checkpoint name, once ".pth" is removed, still begins with "weights_ep". */
  lemma ResolvedNameKeepsPrefix(name: string)
    requires MatchesCheckpointPattern(name)
    ensures StartsWith(Replace(name, ".pth", ""), CheckpointPrefix)
  {
    var n := |name|;
    assert name[..10] == "weights_ep";
    assert OccursAt(name, ".pth", n - 4) by {
      assert name[n - 4..] == ".pth";
    }
    var f := Find(name, ".pth");
    assert f.Some? && f.value >= 10 by {
      forall j | 0 <= j < 10 ensures !OccursAt(name, ".pth", j) {
        assert name[j] == name[..10][j] != '.';
        assert name[j..j + 4][0] == name[j];
      }
    }
    var pieces := Split(name, ".pth");
    assert pieces[0] == name[..f.value];
    var r := Join(pieces, "");
    assert |pieces| >= 2 ==> r == pieces[0] + "" + Join(pieces[1..], "");
    assert r[..10] == pieces[0][..10];
  }

  /**
   * The three fallbacks: `None`, "best" and "latest" are returned exactly in
   * the situations the function's branches describe; "best" is looked at only
   * when no name matches the pattern.
   */
  lemma Fallbacks(fs: FileSystem, expDir: string)
    ensures LatestCheckpoint(fs, expDir) == None <==>
      !PathExists(fs, ModelDir(expDir)) || (CheckpointNames(fs, expDir) == [] && !BestExists(fs, expDir))
    ensures LatestCheckpoint(fs, expDir) == Some("best") <==>
      PathExists(fs, ModelDir(expDir)) && CheckpointNames(fs, expDir) == [] && BestExists(fs, expDir)
    ensures LatestCheckpoint(fs, expDir) == Some("latest") <==>
      && PathExists(fs, ModelDir(expDir))
      && CheckpointNames(fs, expDir) != []
      && forall j :: 0 <= j < |CheckpointNames(fs, expDir)| ==> EpisodeOf(CheckpointNames(fs, expDir)[j]).None?
  {
    var names := CheckpointNames(fs, expDir);
    ParsedEpisodesEmpty(names, EpisodeOf);
    if PathExists(fs, ModelDir(expDir)) && ParsedEpisodes(names, EpisodeOf) != [] {
      var i := LatestIsFirstMaximal(fs, expDir);
      ResolvedNameKeepsPrefix(names[i]);
    }
  }

  /** Once a name matches the pattern, some checkpoint is always named. */
  lemma NeverNoneWithCheckpoints(fs: FileSystem, expDir: string)
    requires PathExists(fs, ModelDir(expDir))
    requires exists k :: 0 <= k < |ListDir(fs, ModelDir(expDir))| && MatchesCheckpointPattern(ListDir(fs, ModelDir(expDir))[k])
    ensures LatestCheckpoint(fs, expDir).Some?
  {
    var k :| 0 <= k < |ListDir(fs, ModelDir(expDir))| && MatchesCheckpointPattern(ListDir(fs, ModelDir(expDir))[k]);
    assert ListDir(fs, ModelDir(expDir))[k] in CheckpointNames(fs, expDir);
  }

  /** A stem containing "_ep" is split at its last "_ep". */
  lemma SplitAtLastEp(stem: string) returns (prefix: string, text: string)
    requires Contains(stem, "_ep")
    ensures text == LastPiece(stem, "_ep") && stem == prefix + text
    ensures EndsWith(prefix, "_ep") && !Contains(text, "_ep")
  {
    LastPieceShape(stem, "_ep");
    text := LastPiece(stem, "_ep");
    prefix := stem[..|stem| - |text|];
    assert stem == prefix + text;
  }

  /**
   * The episode number is read from the text after the last "_ep" of the
   * name without its ".pth" suffix.
   */
  lemma EpisodeTextAfterLastEp(name: string) returns (prefix: string, text: string)
    requires MatchesCheckpointPattern(name)
    ensures name == prefix + text + ".pth"
    ensures EndsWith(prefix, "_ep") && !Contains(text, "_ep")
    ensures EpisodeOf(name) == ParseInt(text)
  {
    var stem := name[..|name| - 4];
    assert name[|name| - 4..] == ".pth";
    StemOfSuffixed(name, ".pth");
    assert OccursAt(stem, "_ep", 7) by {
      assert stem[7..10] == name[..10][7..10];
    }
    prefix, text := SplitAtLastEp(stem);
    assert name == stem + ".pth";
  }

  /** The file name for episode `n` in the form the glob pattern targets. */
  function WeightsName(n: int): string {
    CheckpointPrefix + FormatInt(n) + CheckpointSuffix
  }

  /** In `weights_ep<n>` the only underscore is the one of "_ep", and there is no dot. */
  lemma WeightsStemChars(n: int)
    ensures forall k :: 0 <= k < |CheckpointPrefix + FormatInt(n)| ==>
      var c := (CheckpointPrefix + FormatInt(n))[k];
      (c == '_' ==> k == 7) && c != '.'
  {
    var d := FormatInt(n);
    var stem := CheckpointPrefix + d;
    forall k | 0 <= k < |d| ensures d[k] == '-' || IsDigit(d[k]) {
      if n < 0 && k > 0 {
        assert d[k] == FormatNat(-n)[k - 1];
      }
    }
    forall k | 10 <= k < |stem| ensures stem[k] == d[k - 10] {
    }
  }

  /** The episode text of `weights_ep<n>.pth` is the decimal form of `n`. */
  lemma WeightsEpisodeText(n: int)
    ensures MatchesCheckpointPattern(WeightsName(n))
    ensures LastPiece(Stem(WeightsName(n)), "_ep") == FormatInt(n)
  {
    var d := FormatInt(n);
    var stem := CheckpointPrefix + d;
    var name := WeightsName(n);
    assert name == stem + ".pth";
    assert name[..10] == CheckpointPrefix;
    assert name[|name| - 4..] == ".pth";
    StemOfSuffixed(name, ".pth");
    assert name[..|name| - 4] == stem;
    assert OccursAt(stem, "_ep", 7);
    WeightsStemChars(n);
    var prefix, text := SplitAtLastEp(stem);
    assert prefix[|prefix| - 3] == '_';
    assert stem[|prefix| - 3] == '_';
    assert |prefix| == 10;
  }

  /** A name of the form `weights_ep<n>.pth` matches, parses to `n`, and resolves to `weights_ep<n>`. */
  lemma WeightsNameRoundTrip(n: int)
    ensures MatchesCheckpointPattern(WeightsName(n))
    ensures EpisodeOf(WeightsName(n)) == Some(n)
    ensures Replace(WeightsName(n), ".pth", "") == CheckpointPrefix + FormatInt(n)
  {
    WeightsEpisodeText(n);
    ParseFormatted(n);
    WeightsNameResolves(n);
  }

  /** Removing ".pth" from `weights_ep<n>.pth` leaves `weights_ep<n>`. */
  lemma WeightsNameResolves(n: int)
    ensures Replace(WeightsName(n), ".pth", "") == CheckpointPrefix + FormatInt(n)
  {
    var stem := CheckpointPrefix + FormatInt(n);
    WeightsStemChars(n);
    forall i | 0 <= i < |stem| ensures stem[i] != ".pth"[0] {
    }
    NoCharNoOccurrence(stem, ".pth");
    assert WeightsName(n) == stem + ".pth";
    StripSuffix(stem, ".pth");
  }

  /**
   * If every checkpoint of the run is named `weights_ep<n>.pth`, the run is
   * evaluated from the largest episode number.
   */
  lemma LatestOfWeightsNames(fs: FileSystem, expDir: string, eps: seq<int>) returns (k: nat)
    requires PathExists(fs, ModelDir(expDir))
    requires |eps| > 0 && |CheckpointNames(fs, expDir)| == |eps|
    requires forall j :: 0 <= j < |eps| ==> CheckpointNames(fs, expDir)[j] == WeightsName(eps[j])
    ensures k < |eps| && forall j :: 0 <= j < |eps| ==> eps[j] <= eps[k]
    ensures LatestCheckpoint(fs, expDir) == Some(CheckpointPrefix + FormatInt(eps[k]))
  {
    var names := CheckpointNames(fs, expDir);
    forall j | 0 <= j < |eps| ensures EpisodeOf(names[j]) == Some(eps[j]) {
      WeightsNameRoundTrip(eps[j]);
    }
    assert EpisodeOf(names[0]).Some?;
    ParsedEpisodesEmpty(names, EpisodeOf);
    k := LatestIsFirstMaximal(fs, expDir);
    assert names[k] == WeightsName(eps[k]);
    forall j | 0 <= j < |eps| ensures eps[j] <= eps[k] {
      assert EpisodeOf(names[j]).value <= EpisodeOf(names[k]).value;
    }
    WeightsNameRoundTrip(eps[k]);
  }

  /** The file name `weights_ep.pth_ep<n>.pth`: ".pth" inside the stem, before the last "_ep". */
  function InnerPthName(n: int): string {
    "weights_ep.pth_ep" + FormatInt(n) + CheckpointSuffix
  }

  /** `weights_ep.pth_ep<n>.pth` matches the pattern and its episode number is `n`. */
  lemma InnerPthEpisode(n: int)
    ensures MatchesCheckpointPattern(InnerPthName(n))
    ensures Stem(InnerPthName(n)) == "weights_ep.pth_ep" + FormatInt(n)
    ensures EpisodeOf(InnerPthName(n)) == Some(n)
  {
    var d := FormatInt(n);
    var name := InnerPthName(n);
    var stem := "weights_ep.pth_ep" + d;
    assert name == stem + ".pth";
    assert name[..10] == "weights_ep";
    assert name[|name| - 4..] == ".pth";
    StemOfSuffixed(name, ".pth");
    assert name[..|name| - 4] == stem;
    FormatIntChars(n);
    NoCharNoOccurrence(d, "_ep");
    assert stem == "weights_ep.pth" + "_ep" + d;
    LastPieceAfter("weights_ep.pth", "_ep", d);
    ParseFormatted(n);
  }

  /** Removing ".pth" from `_ep<n>.pth` leaves `_ep<n>`. */
  lemma EpTailResolves(n: int)
    ensures Replace("_ep" + FormatInt(n) + ".pth", ".pth", "") == "_ep" + FormatInt(n)
  {
    var d := FormatInt(n);
    var tail := "_ep" + d;
    FormatIntChars(n);
    forall i | 0 <= i < |tail| ensures tail[i] != '.' {
      if i >= 3 {
        assert tail[i] == d[i - 3];
      }
    }
    NoCharNoOccurrence(tail, ".pth");
    StripSuffix(tail, ".pth");
  }

  /** Removing ".pth" from `weights_ep.pth_ep<n>.pth` removes both occurrences. */
  lemma InnerPthResolves(n: int)
    ensures Replace(InnerPthName(n), ".pth", "") == "weights_ep_ep" + FormatInt(n)
  {
    var tail := "_ep" + FormatInt(n) + ".pth";
    EpTailResolves(n);
    assert InnerPthName(n) == CheckpointPrefix + ".pth" + tail;
    DropPthAfter(CheckpointPrefix, tail);
  }

  /** Removing ".pth" from `head + ".pth" + tail`, for a `head` without dots. */
  lemma DropPthAfter(head: string, tail: string)
    requires forall i :: 0 <= i < |head| ==> head[i] != '.'
    ensures Replace(head + ".pth" + tail, ".pth", "") == head + Replace(tail, ".pth", "")
  {
    NoCharNoOccurrence(head, ".pth");
    ReplaceAfterFree(head, ".pth", tail);
  }

  /**
   * `replace('.pth', '')` removes every ".pth", not only the suffix: a
   * checkpoint name with ".pth" inside its stem parses, and is resolved to a
   * name that is not its stem.
   */
  lemma ResolvedNameDropsEveryPth(n: int)
    ensures MatchesCheckpointPattern(InnerPthName(n))
    ensures EpisodeOf(InnerPthName(n)) == Some(n)
    ensures Replace(InnerPthName(n), ".pth", "") == "weights_ep_ep" + FormatInt(n)
    ensures Replace(InnerPthName(n), ".pth", "") != Stem(InnerPthName(n))
  {
    InnerPthEpisode(n);
    InnerPthResolves(n);
    var r := Replace(InnerPthName(n), ".pth", "");
    assert |r| + 4 == |Stem(InnerPthName(n))|;
  }
}
