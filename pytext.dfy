/**
 * The Python string operations the checkpoint resolver relies on, as pure
 * functions on `seq<char>`: `str.find`, `str.split(sep)`, `str.join`,
 * `str.replace(old, new)`, `str.rfind(ch)`, `PurePath.stem` and ASCII
 * `str.lower`.
 */
module PyText {
  import opened Wrappers

  predicate StartsWith(s: string, p: string) {
    |p| <= |s| && s[..|p|] == p
  }

  predicate EndsWith(s: string, p: string) {
    |p| <= |s| && s[|s| - |p|..] == p
  }

  /** `sep` occurs in `s` starting at index `i`. */
  predicate OccursAt(s: string, sep: string, i: int) {
    0 <= i && i + |sep| <= |s| && s[i..i + |sep|] == sep
  }

  predicate Contains(s: string, sep: string) {
    exists i :: 0 <= i <= |s| - |sep| && OccursAt(s, sep, i)
  }

  /** Lowest index at or after `from` where `sep` occurs (the scan of `str.find`). */
  function FindFrom(s: string, sep: string, from: nat): (r: Option<nat>)
    requires |sep| > 0
    ensures r.Some? ==> from <= r.value && OccursAt(s, sep, r.value)
    ensures r.Some? ==> forall j :: from <= j < r.value ==> !OccursAt(s, sep, j)
    ensures r.None? ==> forall j :: from <= j ==> !OccursAt(s, sep, j)
    decreases |s| - from
  {
    if from + |sep| > |s| then None
    else if s[from..from + |sep|] == sep then Some(from)
    else FindFrom(s, sep, from + 1)
  }

  /** `s.find(sep)`, with `None` for Python's -1. */
  function Find(s: string, sep: string): (r: Option<nat>)
    requires |sep| > 0
    ensures r.Some? ==> OccursAt(s, sep, r.value)
    ensures r.Some? ==> forall j :: 0 <= j < r.value ==> !OccursAt(s, sep, j)
    ensures r.None? ==> !Contains(s, sep)
  {
    FindFrom(s, sep, 0)
  }

  /**
   * `s.split(sep)` for a non-empty separator: the pieces between the
   * occurrences of `sep` found scanning left to right without overlap.
   */
  function Split(s: string, sep: string): (r: seq<string>)
    requires |sep| > 0
    ensures |r| >= 1
    decreases |s|
  {
    match Find(s, sep)
    case None => [s]
    case Some(i) => [s[..i]] + Split(s[i + |sep|..], sep)
  }

  /** `sep.join(pieces)`. */
  function Join(pieces: seq<string>, sep: string): string {
    if |pieces| == 0 then ""
    else if |pieces| == 1 then pieces[0]
    else pieces[0] + sep + Join(pieces[1..], sep)
  }

  /** `s.replace(pat, rep)` for a non-empty pattern: every occurrence, not only the last. */
  function Replace(s: string, pat: string, rep: string): string
    requires |pat| > 0
  {
    Join(Split(s, pat), rep)
  }

  /** `s.split(sep)[-1]`: the text after the last occurrence of `sep`. */
  function LastPiece(s: string, sep: string): string
    requires |sep| > 0
  {
    var pieces := Split(s, sep);
    pieces[|pieces| - 1]
  }

  /** `s.rfind(c)`, with `None` for Python's -1. */
  function RFind(s: string, c: char): (r: Option<nat>)
    ensures r.Some? ==> r.value < |s| && s[r.value] == c
    ensures r.Some? ==> forall j :: r.value < j < |s| ==> s[j] != c
    ensures r.None? ==> forall j :: 0 <= j < |s| ==> s[j] != c
  {
    if |s| == 0 then None
    else if s[|s| - 1] == c then Some(|s| - 1)
    else RFind(s[..|s| - 1], c)
  }

  /**
   * `PurePath(name).stem` for a single path component: the name without its
   * last suffix, where a suffix needs a dot that is neither the first nor the
   * last character.
   */
  function Stem(name: string): (r: string)
    ensures |r| <= |name| && r == name[..|r|]
    ensures |r| < |name| ==> 0 < |r| && name[|r|] == '.' && |r| < |name| - 1
  {
    match RFind(name, '.')
    case Some(i) => if 0 < i < |name| - 1 then name[..i] else name
    case None => name
  }

  function LowerChar(c: char): char {
    if 'A' <= c <= 'Z' then (c as int - 'A' as int + 'a' as int) as char else c
  }

  /** `s.lower()` on ASCII letters. */
  function Lower(s: string): (r: string)
    ensures |r| == |s|
    ensures forall i :: 0 <= i < |s| ==> r[i] == LowerChar(s[i])
  {
    if s == [] then [] else [LowerChar(s[0])] + Lower(s[1..])
  }

  // ---------------------------------------------------------------------
  // Properties of the model

  /** Splitting and joining with the same separator gives the string back. */
  lemma {:induction false} JoinSplit(s: string, sep: string)
    requires |sep| > 0
    ensures Join(Split(s, sep), sep) == s
    decreases |s|
  {
    var f := Find(s, sep);
    if f.Some? {
      var i := f.value;
      var pre, rest := s[..i], s[i + |sep|..];
      var tail := Split(rest, sep);
      JoinSplit(rest, sep);
      assert Split(s, sep) == [pre] + tail;
      assert ([pre] + tail)[1..] == tail;
      assert Join([pre] + tail, sep) == pre + sep + Join(tail, sep);
      assert s == pre + s[i..i + |sep|] + rest;
    }
  }

  /** No piece produced by `Split` contains the separator. */
  lemma {:induction false} SplitPiecesAreFree(s: string, sep: string, k: nat)
    requires |sep| > 0
    requires k < |Split(s, sep)|
    ensures !Contains(Split(s, sep)[k], sep)
    decreases |s|
  {
    match Find(s, sep)
    case None =>
    case Some(i) =>
      if k == 0 {
        if Contains(s[..i], sep) {
          var j :| 0 <= j <= |s[..i]| - |sep| && OccursAt(s[..i], sep, j);
          assert s[j..j + |sep|] == s[..i][j..j + |sep|];
          assert OccursAt(s, sep, j);
        }
      } else {
        SplitPiecesAreFree(s[i + |sep|..], sep, k - 1);
      }
  }

  /** Joining at least two pieces puts the separator before the last one. */
  lemma {:induction false} JoinLast(pieces: seq<string>, sep: string)
    requires |pieces| >= 2
    ensures Join(pieces, sep) == Join(pieces[..|pieces| - 1], sep) + sep + pieces[|pieces| - 1]
  {
    if |pieces| > 2 {
      var tail := pieces[1..];
      JoinLast(tail, sep);
      assert pieces[..|pieces| - 1][1..] == tail[..|tail| - 1];
    }
  }

  /**
   * The last piece of a split is a suffix of the string that does not
   * contain the separator, and what precedes it is empty exactly when the
   * separator does not occur, and ends with the separator otherwise.
   */
  lemma LastPieceShape(s: string, sep: string)
    requires |sep| > 0
    ensures EndsWith(s, LastPiece(s, sep))
    ensures !Contains(LastPiece(s, sep), sep)
    ensures Contains(s, sep) <==> |LastPiece(s, sep)| < |s|
    ensures Contains(s, sep) ==> EndsWith(s[..|s| - |LastPiece(s, sep)|], sep)
  {
    var pieces := Split(s, sep);
    var l := pieces[|pieces| - 1];
    JoinSplit(s, sep);
    SplitPiecesAreFree(s, sep, |pieces| - 1);
    var f := Find(s, sep);
    if f.Some? {
      assert OccursAt(s, sep, f.value);
      JoinLast(pieces, sep);
      var front := Join(pieces[..|pieces| - 1], sep) + sep;
      assert s == front + l;
      assert s[..|s| - |l|] == front;
      assert s[|s| - |l|..] == l;
    }
  }

  /** Replacing a pattern that does not occur leaves the string unchanged. */
  lemma ReplaceAbsent(s: string, pat: string, rep: string)
    requires |pat| > 0
    requires !Contains(s, pat)
    ensures Replace(s, pat, rep) == s
  {
    assert Find(s, pat).None?;
  }

  /**
   * Removing a suffix `suf` whose first character occurs nowhere else in it
   * yields the stem, provided the stem does not contain `suf` itself.
   */
  lemma StripSuffix(stem: string, suf: string)
    requires |suf| > 0
    requires forall k :: 0 < k < |suf| ==> suf[k] != suf[0]
    requires !Contains(stem, suf)
    ensures Replace(stem + suf, suf, "") == stem
  {
    ReplaceAfterFree(stem, suf, "");
    assert stem + suf + "" == stem + suf;
    assert Split("", suf) == [""];
  }

  /**
   * In `a + pat + rest`, where `a` does not contain `pat` and the first
   * character of `pat` does not recur in it, the first occurrence is the one
   * right after `a`.
   */
  lemma FindAfterFree(a: string, pat: string, rest: string)
    requires |pat| > 0
    requires forall k :: 0 < k < |pat| ==> pat[k] != pat[0]
    requires !Contains(a, pat)
    ensures Find(a + pat + rest, pat) == Some(|a|)
  {
    var s := a + pat + rest;
    var n := |a|;
    assert s[n..n + |pat|] == pat;
    forall j | 0 <= j < n
      ensures !OccursAt(s, pat, j)
    {
      if j + |pat| <= n {
        assert s[j..j + |pat|] == a[j..j + |pat|];
        assert !OccursAt(a, pat, j);
      } else {
        var k := n - j;
        assert s[j..j + |pat|][k] == pat[0] != pat[k];
      }
    }
    assert OccursAt(s, pat, n);
  }

  /** Under the same conditions, removing `pat` keeps `a` and carries on in `rest`. */
  lemma ReplaceAfterFree(a: string, pat: string, rest: string)
    requires |pat| > 0
    requires forall k :: 0 < k < |pat| ==> pat[k] != pat[0]
    requires !Contains(a, pat)
    ensures Replace(a + pat + rest, pat, "") == a + Replace(rest, pat, "")
  {
    FindAfterFree(a, pat, rest);
    var s := a + pat + rest;
    assert s[..|a|] == a;
    assert s[|a| + |pat|..] == rest;
    var tail := Split(rest, pat);
    assert Split(s, pat) == [a] + tail;
    assert ([a] + tail)[1..] == tail;
  }

  /** A string that ends with a non-empty `sep` ends with its last character. */
  lemma EndsWithLastChar(x: string, sep: string)
    ensures EndsWith(x, sep) && |sep| > 0 ==> x[|x| - 1] == sep[|sep| - 1]
  {
    if EndsWith(x, sep) && |sep| > 0 {
      assert x[|x| - |sep|..][|sep| - 1] == x[|x| - 1];
    }
  }

  /**
   * The text after the last `sep` of `pre + sep + t` is `t`, when `t` does
   * not contain `sep` nor its last character, which occurs in `sep` only at
   * the end.
   */
  lemma LastPieceAfter(pre: string, sep: string, t: string)
    requires |sep| > 0
    requires forall k :: 0 <= k < |sep| - 1 ==> sep[k] != sep[|sep| - 1]
    requires forall i :: 0 <= i < |t| ==> t[i] != sep[|sep| - 1]
    requires !Contains(t, sep)
    ensures LastPiece(pre + sep + t, sep) == t
  {
    var s := pre + sep + t;
    var p, q := |pre|, |pre| + |sep|;
    assert s[p..q] == sep;
    assert OccursAt(s, sep, p);
    LastPieceShape(s, sep);
    var l := LastPiece(s, sep);
    var m := |s| - |l|;
    var front := s[..m];
    if m <= p {
      assert l[p - m..q - m] == s[p..q];
      assert OccursAt(l, sep, p - m);
      assert false;
    } else if m != q {
      EndsWithLastChar(front, sep);
      assert false;
    }
    assert l == s[q..] == t;
  }

  /** A string without the separator's first character does not contain the separator. */
  lemma NoCharNoOccurrence(s: string, sep: string)
    requires |sep| > 0
    requires forall i :: 0 <= i < |s| ==> s[i] != sep[0]
    ensures !Contains(s, sep)
  {
    forall j | 0 <= j <= |s| - |sep| ensures !OccursAt(s, sep, j) {
      assert s[j..j + |sep|][0] == s[j];
    }
  }

  /** The stem of a name that ends with a dotted suffix free of dots is the name without it. */
  lemma StemOfSuffixed(name: string, suf: string)
    requires |suf| >= 2 && suf[0] == '.'
    requires forall k :: 0 < k < |suf| ==> suf[k] != '.'
    requires EndsWith(name, suf) && |name| > |suf|
    ensures Stem(name) == name[..|name| - |suf|]
  {
    var i := |name| - |suf|;
    assert name[i..][0] == name[i];
    forall j | i < j < |name| ensures name[j] != '.' {
      assert name[i..][j - i] == name[j];
    }
    assert name[i] == '.';
  }
}
