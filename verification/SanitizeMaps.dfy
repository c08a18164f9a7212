/**
 The pass that blanks tell-tale paths in /proc/<pid>/maps
 (sanitize_maps_in_buffer in loader/src/injector/clean.cpp).
 */
module SanitizeMaps {
  import opened Options
  import opened Sanitize

  const JIT_CACHE: Text := "jit-cache-zygisk"
  const MEMFD: Text := "memfd:"
  const ZYGISK_MODULE: Text := "zygisk-module"

  predicate OccursAt(path: Text, marker: Text, k: nat) {
    k + |marker| <= |path| && path[k..k + |marker|] == marker
  }

  predicate Contains(path: Text, marker: Text) {
    exists k: nat :: k <= |path| && OccursAt(path, marker, k)
  }

  predicate HasMarker(path: Text) {
    Contains(path, JIT_CACHE) || Contains(path, MEMFD) || Contains(path, ZYGISK_MODULE)
  }

  /** Where the line that contains `i` continues after `n` more runs of blanks; None when it ends first. */
  function AfterRuns(s: Text, i: nat, n: nat): (r: Option<nat>)
    requires i <= |s|
    ensures r.Some? ==> i <= r.value <= LineEnd(s, i)
    decreases |s| - i
  {
    if n == 0 then Some(i)
    else if i == |s| || s[i] == '\n' then None
    else if Blank(s[i]) then
      assert LineEnd(s, SkipBlanks(s, i)) == LineEnd(s, i) by { BlanksStayInLine(s, i); }
      AfterRuns(s, SkipBlanks(s, i), n - 1)
    else AfterRuns(s, i + 1, n)
  }

  lemma {:induction false} BlanksStayInLine(s: Text, i: nat)
    requires i <= |s|
    ensures LineEnd(s, SkipBlanks(s, i)) == LineEnd(s, i)
    decreases |s| - i
  {
    if i < |s| && Blank(s[i]) {
      BlanksStayInLine(s, i + 1);
    }
  }

  /** The line that begins at `a` is complete, and its path, the sixth field, has a marker. */
  predicate Betrays(s: Text, a: nat)
    requires a <= |s|
  {
    LineEnd(s, a) < |s| && AfterRuns(s, a, 5).Some? && HasMarker(s[AfterRuns(s, a, 5).value..LineEnd(s, a)])
  }

  function Blanked(s: Text, from: nat, end: nat): (r: Text)
    requires from <= end <= |s|
    ensures |r| == |s|
  {
    s[..from] + Spaces(end - from) + s[end..]
  }

  /** The text after the line that begins at `a` has been treated. */
  function LineDone(s: Text, a: nat): (r: Text)
    requires a <= |s|
    ensures |r| == |s|
  {
    if Betrays(s, a) then Blanked(s, AfterRuns(s, a, 5).value, LineEnd(s, a)) else s
  }

  /** What the pass does from the line at `a` on. */
  function Hidden(s: Text, a: nat): (r: Text)
    requires a <= |s|
    ensures |r| == |s|
    decreases |s| - a
  {
    var end := LineEnd(s, a);
    if a == |s| then s
    else Hidden(LineDone(s, a), if end < |s| then end + 1 else end)
  }

  lemma BlankedAt(s: Text, from: nat, end: nat, k: nat)
    requires from <= end <= |s| && k < |s|
    ensures Blanked(s, from, end)[k] == if from <= k < end then ' ' else s[k]
  {
  }

  /** Treating a line changes its path at most. */
  lemma LineDoneKeeps(s: Text, a: nat)
    requires a <= |s|
    ensures SameLayout(s, LineDone(s, a))
    ensures forall k :: 0 <= k < |s| && LineDone(s, a)[k] != s[k] ==>
              Betrays(s, a) && AfterRuns(s, a, 5).value <= k < LineEnd(s, a) && LineDone(s, a)[k] == ' '
    ensures forall k :: 0 <= k < a ==> LineDone(s, a)[k] == s[k]
  {
    hide Betrays, Blanked;
    if Betrays(s, a) {
      BetrayedPath(s, a);
      var p, end := AfterRuns(s, a, 5).value, LineEnd(s, a);
      forall k | 0 <= k < |s| ensures Blanked(s, p, end)[k] == if p <= k < end then ' ' else s[k] {
        BlankedAt(s, p, end, k);
      }
    }
  }

  lemma BetrayedPath(s: Text, a: nat)
    requires a <= |s| && Betrays(s, a)
    ensures AfterRuns(s, a, 5).Some? && LineEnd(s, a) < |s|
    ensures HasMarker(s[AfterRuns(s, a, 5).value..LineEnd(s, a)])
  {
  }

  /** The pass changes nothing before the line it starts with, and never a newline. */
  lemma {:induction false} HiddenKeeps(s: Text, a: nat)
    requires a <= |s|
    ensures SameLayout(s, Hidden(s, a))
    ensures forall k :: 0 <= k < a ==> Hidden(s, a)[k] == s[k]
    decreases |s| - a
  {
    hide LineDone, Betrays;
    if a < |s| {
      LineDoneKeeps(s, a);
      var end := LineEnd(s, a);
      HiddenKeeps(LineDone(s, a), if end < |s| then end + 1 else end);
    }
  }

  // --- Line by line ----------------------------------------------------------------------------------

  lemma {:induction false} RunsAreLocal(s: Text, r: Text, i: nat, n: nat)
    requires i <= |s| && Agree(s, r, i, LineEnd(s, i) + 1)
    ensures AfterRuns(r, i, n) == AfterRuns(s, i, n)
    decreases |s| - i
  {
    if n > 0 && i < |s| && s[i] != '\n' {
      if Blank(s[i]) {
        BlanksStayInLine(s, i);
        SkipBlanksIsLocal(s, r, i);
        RunsAreLocal(s, r, SkipBlanks(s, i), n - 1);
      } else {
        RunsAreLocal(s, r, i + 1, n);
      }
    }
  }

  /** Whether a line betrays something depends on the line alone. */
  lemma BetraysIsLocal(s: Text, r: Text, a: nat)
    requires a <= |s| && Agree(s, r, a, LineEnd(s, a) + 1)
    ensures Betrays(r, a) <==> Betrays(s, a)
    ensures LineEnd(r, a) == LineEnd(s, a) && AfterRuns(r, a, 5) == AfterRuns(s, a, 5)
  {
    hide HasMarker;
    LineEndIsLocal(s, r, a);
    RunsAreLocal(s, r, a, 5);
    if AfterRuns(s, a, 5).Some? {
      assert s[AfterRuns(s, a, 5).value..LineEnd(s, a)] == r[AfterRuns(s, a, 5).value..LineEnd(s, a)];
    }
  }

  /** The line that begins at `a` after the whole pass: its path blanked when it betrays something, else unchanged. */
  ghost predicate LineTreated(s: Text, r: Text, a: nat)
    requires a <= |s| && |r| == |s|
  {
    forall k :: a <= k < LineEnd(s, a) ==>
      r[k] == if Betrays(s, a) && AfterRuns(s, a, 5).value <= k then ' ' else s[k]
  }

  lemma FirstLineTreated(s: Text, a: nat)
    requires a < |s|
    ensures LineTreated(s, Hidden(s, a), a)
  {
    hide Betrays, Blanked;
    var end, t := LineEnd(s, a), LineDone(s, a);
    HiddenKeeps(t, if end < |s| then end + 1 else end);
    if Betrays(s, a) {
      BetrayedPath(s, a);
      forall k | a <= k < end ensures t[k] == if AfterRuns(s, a, 5).value <= k then ' ' else s[k] {
        BlankedAt(s, AfterRuns(s, a, 5).value, end, k);
      }
    }
  }

  /**
   Every line keeps its first five fields; its path is blanked exactly when the
   line is complete and the path has a marker.
   */
  lemma {:induction false} EveryLineTreated(s: Text, a: nat, b: nat)
    requires a <= b < |s| && (a == b || LineStart(s, b))
    ensures LineTreated(s, Hidden(s, a), b)
    decreases |s| - a
  {
    hide LineDone, Betrays, LineTreated;
    if a == b {
      FirstLineTreated(s, a);
    } else {
      var end, t := LineEnd(s, a), LineDone(s, a);
      assert end < b;
      LineDoneKeeps(s, a);
      assert Agree(t, s, b, |s|);
      LineEndIsLocal(s, t, b);
      EveryLineTreated(t, end + 1, b);
      TreatedIsLocal(s, t, Hidden(s, a), b);
    }
  }

  lemma TreatedIsLocal(s: Text, t: Text, r: Text, b: nat)
    requires b <= |s| && Agree(t, s, b, |s|) && |r| == |s| && LineTreated(t, r, b)
    ensures LineTreated(s, r, b)
  {
    hide Betrays;
    BetraysIsLocal(t, s, b);
  }

  // --- Nothing is left, and once is enough -------------------------------------------------------------

  lemma MarkerChars()
    ensures |JIT_CACHE| > 0 && JIT_CACHE[0] == 'j' && |MEMFD| > 0 && MEMFD[0] == 'm' && |ZYGISK_MODULE| > 0 && ZYGISK_MODULE[0] == 'z'
  {
  }

  lemma BlankHasNoMarker(path: Text)
    requires forall k :: 0 <= k < |path| ==> path[k] == ' '
    ensures !HasMarker(path)
  {
    MarkerChars();
    NoOccurrence(path, JIT_CACHE);
    NoOccurrence(path, MEMFD);
    NoOccurrence(path, ZYGISK_MODULE);
  }

  lemma NoOccurrence(path: Text, marker: Text)
    requires |marker| > 0 && marker[0] != ' ' && forall k :: 0 <= k < |path| ==> path[k] == ' '
    ensures !Contains(path, marker)
  {
    forall k: nat | k <= |path| ensures !OccursAt(path, marker, k) {
      if k + |marker| <= |path| {
        assert path[k..k + |marker|][0] == path[k];
      }
    }
  }

  /** When everything from the path to the line's end is blank, the last run reaches the line's end. */
  lemma {:induction false} BlankedRuns(s: Text, r: Text, i: nat, n: nat)
    requires i <= |s| && n > 0 && AfterRuns(s, i, n).Some? && LineEnd(s, i) < |s|
    requires var p := AfterRuns(s, i, n).value;
             |r| == |s| && (forall k :: i <= k < p ==> r[k] == s[k]) &&
             (forall k :: p <= k < LineEnd(s, i) ==> r[k] == ' ') && r[LineEnd(s, i)] == '\n'
    ensures AfterRuns(r, i, n) == Some(LineEnd(s, i))
    decreases |s| - i
  {
    var p := AfterRuns(s, i, n).value;
    RunsAdvance(s, i, n);
    if Blank(s[i]) {
      BlanksStayInLine(s, i);
      var b := SkipBlanks(s, i);
      if n == 1 {
        BlanksEnd(r, i, LineEnd(s, i));
      } else {
        RunsAdvance(s, b, n - 1);
        BlanksEnd(r, i, b);
        BlankedRuns(s, r, b, n - 1);
      }
    } else {
      BlankedRuns(s, r, i + 1, n);
    }
  }

  lemma {:induction false} RunsAdvance(s: Text, i: nat, n: nat)
    requires i <= |s| && n > 0 && AfterRuns(s, i, n).Some?
    ensures i < |s| && s[i] != '\n' && i < AfterRuns(s, i, n).value
    ensures !Blank(s[i]) ==> i + 1 < AfterRuns(s, i, n).value
    decreases |s| - i
  {
    if !Blank(s[i]) {
      RunsAdvance(s, i + 1, n);
    }
  }

  /** A treated line betrays nothing. */
  lemma TreatedIsClean(s: Text, r: Text, a: nat)
    requires a <= |s| && SameLayout(s, r) && LineTreated(s, r, a)
    ensures !Betrays(r, a)
  {
    hide HasMarker;
    SameLineEnd(s, r, a);
    if Betrays(s, a) {
      BlankedRuns(s, r, a, 5);
      BlankHasNoMarker(r[LineEnd(s, a)..LineEnd(s, a)]);
    } else {
      BetraysIsLocal(s, r, a);
    }
  }

  lemma {:induction false} SameLineEnd(s: Text, r: Text, a: nat)
    requires a <= |s| && SameLayout(s, r)
    ensures LineEnd(r, a) == LineEnd(s, a)
    decreases |s| - a
  {
    if a < |s| && s[a] != '\n' {
      SameLineEnd(s, r, a + 1);
    }
  }

  /** No complete line of the result has a marker in its path. */
  lemma NoLineBetrays(s: Text, b: nat)
    requires LineStart(s, b)
    ensures SameLayout(s, Hidden(s, 0)) && !Betrays(Hidden(s, 0), b)
  {
    hide Betrays, LineTreated;
    HiddenKeeps(s, 0);
    EveryLineTreated(s, 0, b);
    TreatedIsClean(s, Hidden(s, 0), b);
  }

  /** Where no line betrays anything the pass changes nothing. */
  lemma {:induction false} CleanIsUnchanged(s: Text, a: nat)
    requires a <= |s| && (a < |s| ==> !Betrays(s, a)) && forall b: nat :: a < b && LineStart(s, b) ==> !Betrays(s, b)
    ensures Hidden(s, a) == s
    decreases |s| - a
  {
    hide Betrays;
    if a < |s| {
      var end := LineEnd(s, a);
      CleanIsUnchanged(s, if end < |s| then end + 1 else end);
    }
  }

  /** Running the pass again changes nothing. */
  lemma HidingIsIdempotent(s: Text)
    ensures Hidden(Hidden(s, 0), 0) == Hidden(s, 0)
  {
    hide Betrays;
    var r := Hidden(s, 0);
    HiddenKeeps(s, 0);
    forall b: nat | LineStart(r, b) ensures !Betrays(r, b) {
      NoLineBetrays(s, b);
    }
    CleanIsUnchanged(r, 0);
  }

  // --- The pass itself --------------------------------------------------------------------------------

  /** sanitize_maps_in_buffer. */
  method SanitizeMapsBuffer(buf: array<char>, nbytes: nat) returns (n: nat)
    requires nbytes <= buf.Length
    modifies buf
    ensures n == nbytes && buf[..nbytes] == Hidden(old(buf[..nbytes]), 0)
    ensures forall k :: nbytes <= k < buf.Length ==> buf[k] == old(buf[k])
  {
    hide LineDone;
    var i: nat := 0;
    while i < nbytes
      invariant i <= nbytes
      invariant Hidden(buf[..nbytes], i) == Hidden(old(buf[..nbytes]), 0)
      invariant forall k :: nbytes <= k < buf.Length ==> buf[k] == old(buf[k])
    {
      var j := TreatLine(buf, nbytes, i);
      i := if j < nbytes then j + 1 else j;
    }
    return nbytes;
  }

  /** Blanks the path of the line that begins at `i` when it betrays something; answers where the line ends. */
  method TreatLine(buf: array<char>, nbytes: nat, i: nat) returns (j: nat)
    requires i < nbytes <= buf.Length
    modifies buf
    ensures j == LineEnd(old(buf[..nbytes]), i)
    ensures buf[..nbytes] == LineDone(old(buf[..nbytes]), i)
    ensures forall k :: nbytes <= k < buf.Length ==> buf[k] == old(buf[k])
  {
    hide AfterRuns, HasMarker, Blanked;
    ghost var s := buf[..nbytes];
    var field, pathStart;
    field, pathStart, j := ScanLine(buf, nbytes, i);
    if j < nbytes && field >= 5 {
      assert buf[pathStart..j] == s[pathStart..j];
      if HasMarker(buf[pathStart..j]) {
        BlankRange(buf, nbytes, pathStart, j);
      }
    }
  }

  /** Counts the runs of blanks in the line that begins at `i` and notes where the sixth field begins. */
  method ScanLine(buf: array<char>, nbytes: nat, i: nat) returns (field: nat, pathStart: nat, j: nat)
    requires i < nbytes <= buf.Length
    ensures var s := buf[..nbytes]; j == LineEnd(s, i) && AfterRuns(s, i, 5) == if field >= 5 then Some(pathStart) else None
  {
    ghost var s := buf[..nbytes];
    field, pathStart, j := 0, i, i;
    while j < nbytes && buf[j] != '\n'
      invariant i <= j <= nbytes && LineEnd(s, j) == LineEnd(s, i)
      invariant AfterRuns(s, i, 5) == if field >= 5 then Some(pathStart) else AfterRuns(s, j, 5 - field)
    {
      if buf[j] == ' ' || buf[j] == '\t' {
        BlanksStayInLine(s, j);
        j := SkipRun(buf, nbytes, j);
        field := field + 1;
        if field == 5 {
          pathStart := j;
        }
      } else {
        j := j + 1;
      }
    }
  }

  method SkipRun(buf: array<char>, nbytes: nat, j0: nat) returns (j: nat)
    requires j0 < nbytes <= buf.Length && Blank(buf[j0])
    ensures j == SkipBlanks(buf[..nbytes], j0) && j > j0
  {
    ghost var s := buf[..nbytes];
    j := j0;
    while j < nbytes && (buf[j] == ' ' || buf[j] == '\t')
      invariant j0 <= j <= nbytes && SkipBlanks(s, j) == SkipBlanks(s, j0)
    {
      j := j + 1;
    }
  }

  method BlankRange(buf: array<char>, nbytes: nat, from: nat, end: nat)
    requires from <= end <= nbytes <= buf.Length
    modifies buf
    ensures buf[..nbytes] == Blanked(old(buf[..nbytes]), from, end)
    ensures forall k :: nbytes <= k < buf.Length ==> buf[k] == old(buf[k])
  {
    for k := from to end
      invariant forall m :: from <= m < k ==> buf[m] == ' '
      invariant forall m :: 0 <= m < buf.Length && !(from <= m < k) ==> buf[m] == old(buf[m])
    {
      buf[k] := ' ';
    }
  }
}
