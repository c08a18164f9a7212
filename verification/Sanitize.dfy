/**
 The two passes that rewrite what a process reads from /proc in place
 (loader/src/injector/clean.cpp): TracerPid lines of status, and the paths of maps.
 */
module Sanitize {
  type Text = seq<char>

  predicate Blank(c: char) {
    c == ' ' || c == '\t'
  }

  predicate Digit(c: char) {
    '0' <= c <= '9'
  }

  /** The first position from `i` on that is not blank. */
  function SkipBlanks(s: Text, i: nat): (r: nat)
    requires i <= |s|
    ensures i <= r <= |s| && (r < |s| ==> !Blank(s[r]))
    ensures forall k :: i <= k < r ==> Blank(s[k])
    decreases |s| - i
  {
    if i < |s| && Blank(s[i]) then SkipBlanks(s, i + 1) else i
  }

  function SkipDigits(s: Text, i: nat): (r: nat)
    requires i <= |s|
    ensures i <= r <= |s| && (r < |s| ==> !Digit(s[r]))
    ensures forall k :: i <= k < r ==> Digit(s[k])
    decreases |s| - i
  {
    if i < |s| && Digit(s[i]) then SkipDigits(s, i + 1) else i
  }

  /** The next newline from `i` on, or the end of the text. */
  function LineEnd(s: Text, i: nat): (r: nat)
    requires i <= |s|
    ensures i <= r <= |s| && (r < |s| ==> s[r] == '\n')
    ensures forall k :: i <= k < r ==> s[k] != '\n'
    decreases |s| - i
  {
    if i < |s| && s[i] != '\n' then LineEnd(s, i + 1) else i
  }

  function Spaces(n: nat): (r: Text)
    ensures |r| == n && forall k :: 0 <= k < n ==> r[k] == ' '
  {
    if n == 0 then [] else [' '] + Spaces(n - 1)
  }

  /** Same length, and the same newlines: what a caller splitting the buffer into lines relies on. */
  ghost predicate SameLayout(s: Text, r: Text) {
    |r| == |s| && forall k :: 0 <= k < |s| ==> (r[k] == '\n' <==> s[k] == '\n')
  }

  ghost predicate LineStart(s: Text, a: nat) {
    a < |s| && (a == 0 || s[a - 1] == '\n')
  }

  // --- TracerPid ------------------------------------------------------------------------------------

  const KEY: Text := "TracerPid:"

  predicate KeyAt(s: Text, i: nat): (b: bool)
    ensures b ==> i + 10 <= |s|
  {
    i + 10 <= |s| && s[i..i + 10] == KEY
  }

  function ValueStart(s: Text, i: nat): (r: nat)
    requires i + 10 <= |s|
    ensures i + 10 <= r <= |s|
  {
    SkipBlanks(s, i + 10)
  }

  function ValueEnd(s: Text, i: nat): (r: nat)
    requires i + 10 <= |s|
    ensures ValueStart(s, i) <= r <= |s|
  {
    SkipDigits(s, ValueStart(s, i))
  }

  /** The key at `i` has a value with a non-zero digit. */
  predicate Traced(s: Text, i: nat)
    requires i + 10 <= |s|
  {
    exists k :: ValueStart(s, i) <= k < ValueEnd(s, i) && s[k] != '0'
  }

  /** `s` with a zero at `v` and spaces up to `end`. */
  function Zeroed(s: Text, v: nat, end: nat): (r: Text)
    requires v < end <= |s|
    ensures |r| == |s|
  {
    s[..v] + ['0'] + Spaces(end - v - 1) + s[end..]
  }

  /** What the pass does from position `i` on. */
  function Hidden(s: Text, i: nat): (r: Text)
    ensures |r| == |s|
    decreases |s| - i
  {
    if i + 10 >= |s| then s
    else if !KeyAt(s, i) then Hidden(s, i + 1)
    else if !Traced(s, i) then Hidden(s, ValueEnd(s, i) + 1)
    else
      var end := LineEnd(s, ValueEnd(s, i));
      Hidden(Zeroed(s, ValueStart(s, i), end), end + 1)
  }

  lemma KeyChars()
    ensures |KEY| == 10 && KEY[0] == 'T'
    ensures forall k :: 0 <= k < 10 ==> KEY[k] != '\n' && !Blank(KEY[k]) && !Digit(KEY[k])
    ensures forall k :: 0 < k < 10 ==> KEY[k] != 'T'
  {
  }

  lemma ZeroedAt(s: Text, v: nat, end: nat, k: nat)
    requires v < end <= |s| && k < |s|
    ensures Zeroed(s, v, end)[k] == if k == v then '0' else if v < k < end then ' ' else s[k]
  {
  }

  /** Where a traced key's value and line lie. */
  lemma TracedBounds(s: Text, i: nat)
    requires i + 10 <= |s| && Traced(s, i)
    ensures i + 10 <= ValueStart(s, i) < ValueEnd(s, i) <= LineEnd(s, ValueEnd(s, i))
    ensures forall k :: ValueStart(s, i) <= k < LineEnd(s, ValueEnd(s, i)) ==> s[k] != '\n'
  {
  }

  /** The pass changes nothing before `i + 10`, and never a newline. */
  lemma {:induction false} HiddenKeeps(s: Text, i: nat)
    ensures SameLayout(s, Hidden(s, i))
    ensures forall k :: 0 <= k < i + 10 && k < |s| ==> Hidden(s, i)[k] == s[k]
    decreases |s| - i
  {
    hide Traced, KeyAt, ValueStart, ValueEnd, Zeroed;
    if i + 10 < |s| {
      if !KeyAt(s, i) {
        HiddenKeeps(s, i + 1);
      } else if !Traced(s, i) {
        HiddenKeeps(s, ValueEnd(s, i) + 1);
      } else {
        TracedBounds(s, i);
        var v, end := ValueStart(s, i), LineEnd(s, ValueEnd(s, i));
        var t := Zeroed(s, v, end);
        forall k | 0 <= k < |s| ensures t[k] == if k == v then '0' else if v < k < end then ' ' else s[k] {
          ZeroedAt(s, v, end, k);
        }
        HiddenKeeps(t, end + 1);
      }
    }
  }

  /** Whether there is a key, and what its value is, depends on the text from the key to one past the value only. */
  ghost predicate Agree(s: Text, r: Text, from: nat, n: nat) {
    |s| == |r| && forall k :: from <= k < n && k < |s| ==> s[k] == r[k]
  }

  lemma KeyIsLocal(s: Text, r: Text, i: nat)
    requires Agree(s, r, i, i + 10)
    ensures KeyAt(s, i) <==> KeyAt(r, i)
  {
    if i + 10 <= |s| {
      assert s[i..i + 10] == r[i..i + 10];
    }
  }

  lemma {:induction false} SkipBlanksIsLocal(s: Text, r: Text, i: nat)
    requires i <= |s| && Agree(s, r, i, SkipBlanks(s, i) + 1)
    ensures SkipBlanks(r, i) == SkipBlanks(s, i)
    decreases |s| - i
  {
    if i < |s| && Blank(s[i]) {
      SkipBlanksIsLocal(s, r, i + 1);
    }
  }

  lemma {:induction false} SkipDigitsIsLocal(s: Text, r: Text, i: nat)
    requires i <= |s| && Agree(s, r, i, SkipDigits(s, i) + 1)
    ensures SkipDigits(r, i) == SkipDigits(s, i)
    decreases |s| - i
  {
    if i < |s| && Digit(s[i]) {
      SkipDigitsIsLocal(s, r, i + 1);
    }
  }

  lemma ValueIsLocal(s: Text, r: Text, i: nat)
    requires i + 10 <= |s| && Agree(s, r, i, ValueEnd(s, i) + 1)
    ensures ValueEnd(r, i) == ValueEnd(s, i) && (Traced(r, i) <==> Traced(s, i))
  {
    SkipBlanksIsLocal(s, r, i + 10);
    SkipDigitsIsLocal(s, r, ValueStart(s, i));
    assert forall k :: ValueStart(s, i) <= k < ValueEnd(s, i) ==> s[k] == r[k];
  }

  /** Nothing happens where no key begins. */
  lemma {:induction false} HiddenSkips(s: Text, i: nat, n: nat)
    requires i <= n <= |s| + 1 && forall k :: i <= k < n && k < |s| ==> s[k] != 'T'
    ensures Hidden(s, i) == Hidden(s, n)
    decreases n - i
  {
    if i < n {
      if i + 10 < |s| {
        KeyChars();
        assert s[i..i + 10][0] == s[i];
        HiddenSkips(s, i + 1, n);
      }
    }
  }

  /** After the pass the key at `i`, which was traced, reads zero, followed by spaces. */
  lemma ZeroedReadsZero(r: Text, i: nat, v: nat, end: nat)
    requires i + 10 <= v < end <= |r| && (end < |r| ==> r[end] == '\n')
    requires r[v] == '0' && (forall k :: v < k < end ==> r[k] == ' ') && (forall k :: i + 10 <= k < v ==> Blank(r[k]))
    ensures ValueStart(r, i) == v && ValueEnd(r, i) == v + 1 && !Traced(r, i)
  {
    BlanksEnd(r, i + 10, v);
    assert SkipDigits(r, v) == SkipDigits(r, v + 1) == v + 1;
  }

  lemma {:induction false} BlanksEnd(r: Text, i: nat, v: nat)
    requires i <= v <= |r| && (v < |r| ==> !Blank(r[v])) && forall k :: i <= k < v ==> Blank(r[k])
    ensures SkipBlanks(r, i) == v
    decreases v - i
  {
    if i < v {
      BlanksEnd(r, i + 1, v);
    }
  }

  /** What the text looks like around a traced key once the rest has been rewritten. */
  lemma AfterZeroing(s: Text, i: nat)
    requires i + 10 < |s| && KeyAt(s, i) && Traced(s, i)
    ensures var r, v, end := Hidden(s, i), ValueStart(s, i), LineEnd(s, ValueEnd(s, i));
            KeyAt(r, i) && ValueEnd(r, i) == v + 1 && !Traced(r, i) && v < end &&
            (end < |r| ==> r[end] == '\n') && (forall k :: v < k < end ==> r[k] == ' ')
  {
    hide KeyAt, Zeroed, Traced, ValueEnd;
    TracedBounds(s, i);
    var v, end := ValueStart(s, i), LineEnd(s, ValueEnd(s, i));
    var t := Zeroed(s, v, end);
    forall k | 0 <= k < |s| ensures t[k] == if k == v then '0' else if v < k < end then ' ' else s[k] {
      ZeroedAt(s, v, end, k);
    }
    var r := Hidden(t, end + 1);
    assert r == Hidden(s, i);
    HiddenKeeps(t, end + 1);
    assert Agree(s, r, i, v);
    KeyIsLocal(s, r, i);
    ZeroedReadsZero(r, i, v, end);
  }

  /** Running the pass again changes nothing. */
  lemma {:induction false} HidingIsIdempotent(s: Text, i: nat)
    ensures Hidden(Hidden(s, i), i) == Hidden(s, i)
    decreases |s| - i
  {
    hide KeyAt, Traced, ValueStart, ValueEnd, Zeroed;
    if i + 10 < |s| {
      var r := Hidden(s, i);
      if !KeyAt(s, i) {
        HiddenKeeps(s, i + 1);
        KeyIsLocal(s, r, i);
        HidingIsIdempotent(s, i + 1);
      } else if !Traced(s, i) {
        HiddenKeeps(s, ValueEnd(s, i) + 1);
        KeyIsLocal(s, r, i);
        ValueIsLocal(s, r, i);
        HidingIsIdempotent(s, ValueEnd(s, i) + 1);
      } else {
        TracedBounds(s, i);
        AfterZeroing(s, i);
        var v, end := ValueStart(s, i), LineEnd(s, ValueEnd(s, i));
        HiddenSkips(r, v + 2, end + 1);
        HidingIsIdempotent(Zeroed(s, v, end), end + 1);
      }
    }
  }

  // --- What the pass leaves ------------------------------------------------------------------------------

  ghost predicate TracedKey(s: Text, k: nat) {
    KeyAt(s, k) && Traced(s, k)
  }

  ghost predicate NoneTraced(s: Text, from: nat) {
    forall k: nat :: from <= k ==> !TracedKey(s, k)
  }

  /**
   The scan from `from` stops at the key at `k`, unless it jumped over it: behind an
   untraced key it goes on one past the value, so a key right there is missed.
   */
  ghost predicate Visited(s: Text, from: nat, k: nat): (b: bool)
    ensures b ==> from <= k && KeyAt(s, k)
    decreases k
  {
    from <= k && KeyAt(s, k) &&
    !exists i: nat :: i < k && Visited(s, from, i) && !Traced(s, i) && ValueEnd(s, i) == k
  }

  /** `k` lies behind the value on the line of a traced key the scan stopped at: that is overwritten with spaces. */
  ghost predicate Blanked(s: Text, from: nat, k: nat) {
    exists j: nat :: j < k && Visited(s, from, j) && Traced(s, j) && k < LineEnd(s, ValueEnd(s, j))
  }

  /** A traced key the pass neither stops at nor overwrites. */
  ghost predicate Missed(s: Text, from: nat, k: nat) {
    from <= k && TracedKey(s, k) && !Visited(s, from, k) && !Blanked(s, from, k)
  }

  lemma NotKey(s: Text, k: nat)
    requires k < |s| && s[k] != 'T'
    ensures !KeyAt(s, k)
  {
    KeyChars();
    if k + 10 <= |s| {
      assert s[k..k + 10][0] == s[k];
    }
  }

  /** Between a key and the end of its value no other key begins. */
  lemma NoKeyInside(s: Text, i: nat, k: nat)
    requires KeyAt(s, i) && i < k < ValueEnd(s, i)
    ensures !KeyAt(s, k) && s[k] != '\n' && s[k] != 'T'
  {
    KeyChars();
    if k < i + 10 {
      assert s[i..i + 10][k - i] == s[k];
    }
    NotKey(s, k);
  }

  lemma EmptyValue(s: Text, k: nat)
    requires k + 10 == |s|
    ensures !Traced(s, k)
  {
  }

  lemma ZeroedBehind(s: Text, v: nat, end: nat)
    requires v < end <= |s|
    ensures Agree(s, Zeroed(s, v, end), end, |s|)
  {
    forall k | end <= k < |s| ensures Zeroed(s, v, end)[k] == s[k] {
      ZeroedAt(s, v, end, k);
    }
  }

  /** The value of a key ends on the key's line. */
  lemma ValueOnLine(s: Text, j: nat, end: nat)
    requires KeyAt(s, j) && j <= end <= |s| && (end < |s| ==> s[end] == '\n')
    ensures j < end && ValueEnd(s, j) <= LineEnd(s, ValueEnd(s, j)) <= end
  {
    KeyChars();
    assert s[j..j + 10][0] == s[j];
    if j < end < ValueEnd(s, j) {
      NoKeyInside(s, j, end);
    }
  }

  /** Starting later stops at the same keys, if no jump from the part left out reaches past it. */
  lemma {:induction false} VisitedLater(s: Text, a: nat, b: nat, k: nat)
    requires a <= b <= k && forall j: nat :: j < b && Visited(s, a, j) && !Traced(s, j) ==> ValueEnd(s, j) < b
    ensures Visited(s, a, k) <==> Visited(s, b, k)
    decreases k
  {
    hide KeyAt, Traced, ValueEnd;
    forall i: nat | b <= i < k ensures Visited(s, a, i) <==> Visited(s, b, i) {
      VisitedLater(s, a, b, i);
    }
  }

  lemma MissedLater(s: Text, a: nat, b: nat, k: nat)
    requires a <= b <= k
    requires forall j: nat :: j < b && Visited(s, a, j) && !Traced(s, j) ==> ValueEnd(s, j) < b
    requires forall j: nat :: j < b && Visited(s, a, j) && Traced(s, j) ==> LineEnd(s, ValueEnd(s, j)) <= k
    ensures Missed(s, a, k) <==> Missed(s, b, k)
  {
    hide KeyAt, Traced, ValueEnd, Visited;
    forall i: nat | b <= i <= k ensures Visited(s, a, i) <==> Visited(s, b, i) {
      VisitedLater(s, a, b, i);
    }
  }

  /** What the scan stops at depends on the text behind its start only. */
  lemma {:induction false} VisitedIsLocal(s: Text, t: Text, from: nat, k: nat)
    requires Agree(s, t, from, |s|)
    ensures Visited(s, from, k) <==> Visited(t, from, k)
    decreases k
  {
    hide KeyAt, Traced, ValueEnd;
    if from <= k {
      KeyIsLocal(s, t, k);
      forall i: nat | i < k
        ensures Visited(s, from, i) <==> Visited(t, from, i)
        ensures Visited(s, from, i) ==> ValueEnd(s, i) == ValueEnd(t, i) && (Traced(s, i) <==> Traced(t, i))
      {
        VisitedIsLocal(s, t, from, i);
        if from <= i && KeyAt(s, i) {
          ValueIsLocal(s, t, i);
        }
      }
    }
  }

  lemma MissedIsLocal(s: Text, t: Text, from: nat, k: nat)
    requires Agree(s, t, from, |s|) && from <= k
    ensures Missed(s, from, k) <==> Missed(t, from, k)
  {
    hide KeyAt, Traced, ValueEnd, Visited;
    TracedIsLocal(s, t, k);
    VisitedIsLocal(s, t, from, k);
    forall j: nat | j < k
      ensures Visited(s, from, j) <==> Visited(t, from, j)
      ensures Visited(s, from, j) ==>
                (Traced(s, j) <==> Traced(t, j)) && LineEnd(s, ValueEnd(s, j)) == LineEnd(t, ValueEnd(t, j))
    {
      VisitedIsLocal(s, t, from, j);
      if Visited(s, from, j) {
        ValueIsLocal(s, t, j);
        LineEndIsLocal(s, t, ValueEnd(s, j));
      }
    }
  }

  lemma TracedIsLocal(s: Text, t: Text, k: nat)
    requires Agree(s, t, k, |s|)
    ensures TracedKey(s, k) <==> TracedKey(t, k)
  {
    hide KeyAt, Traced, ValueEnd;
    KeyIsLocal(s, t, k);
    if KeyAt(s, k) {
      ValueIsLocal(s, t, k);
    }
  }

  /** The traced keys the pass leaves are those it missed. */
  lemma {:induction false} LeftExactlyMissed(s: Text, i: nat, k: nat)
    requires i <= k
    ensures TracedKey(Hidden(s, i), k) <==> Missed(s, i, k)
    decreases |s| - i
  {
    hide Traced, ValueEnd, Zeroed, ValueStart, Visited, Missed, KeyAt;
    if i + 10 >= |s| {
      if KeyAt(s, k) {
        EmptyValue(s, k);
      }
      OnlyTracedMissed(s, i, k);
    } else if !KeyAt(s, i) {
      LeftBehindOther(s, i, k);
    } else if !Traced(s, i) {
      LeftBehindZero(s, i, k);
    } else {
      LeftBehindTraced(s, i, k);
    }
  }

  lemma OnlyTracedMissed(s: Text, i: nat, k: nat)
    ensures Missed(s, i, k) ==> TracedKey(s, k)
  {
  }

  lemma {:induction false} LeftBehindOther(s: Text, i: nat, k: nat)
    requires i <= k && i + 10 < |s| && !KeyAt(s, i)
    ensures TracedKey(Hidden(s, i), k) <==> Missed(s, i, k)
    decreases |s| - i, 0
  {
    hide KeyAt, Traced, ValueEnd;
    if k == i {
      HiddenKeeps(s, i + 1);
      KeyIsLocal(s, Hidden(s, i), i);
    } else {
      LeftExactlyMissed(s, i + 1, k);
      MissedLater(s, i, i + 1, k);
    }
  }

  lemma {:induction false} LeftBehindZero(s: Text, i: nat, k: nat)
    requires i <= k && i + 10 < |s| && KeyAt(s, i) && !Traced(s, i)
    ensures TracedKey(Hidden(s, i), k) <==> Missed(s, i, k)
    decreases |s| - i, 0
  {
    hide KeyAt, Traced, ValueEnd, ValueStart;
    var r, e := Hidden(s, i), ValueEnd(s, i);
    HiddenKeeps(s, e + 1);
    AfterZeroKey(s, i);
    if k > e {
      LeftExactlyMissed(s, e + 1, k);
      MissedLater(s, i, e + 1, k);
    } else if k == e {
      KeyIsLocal(s, r, e);
      if KeyAt(s, e) {
        SkippedKeyIsKept(s, e);
      }
    } else if i < k {
      NoKeyInside(s, i, k);
      KeyIsLocal(s, r, k);
    } else {
      KeyIsLocal(s, r, i);
      ValueIsLocal(s, r, i);
    }
  }

  /** Up to one past an untraced key's value the scan stops at that key only. */
  lemma AfterZeroKey(s: Text, i: nat)
    requires KeyAt(s, i) && !Traced(s, i)
    ensures Visited(s, i, i) && forall j: nat :: j <= ValueEnd(s, i) && Visited(s, i, j) ==> j == i
  {
    hide KeyAt, Traced, ValueEnd, ValueStart;
    assert Visited(s, i, i);
    forall j: nat | j <= ValueEnd(s, i) && Visited(s, i, j) ensures j == i {
      if i < j < ValueEnd(s, i) {
        NoKeyInside(s, i, j);
      }
    }
  }

  /** The pass from inside a key on leaves that key and its value alone. */
  lemma SkippedKeyIsKept(s: Text, e: nat)
    requires KeyAt(s, e)
    ensures TracedKey(Hidden(s, e + 1), e) <==> TracedKey(s, e)
  {
    hide KeyAt, Traced, ValueEnd, ValueStart;
    var f := ValueEnd(s, e);
    forall k | e < k < f ensures s[k] != 'T' {
      NoKeyInside(s, e, k);
    }
    HiddenSkips(s, e + 1, f);
    HiddenKeeps(s, f);
    KeyIsLocal(s, Hidden(s, f), e);
    ValueIsLocal(s, Hidden(s, f), e);
  }

  lemma {:induction false} LeftBehindTraced(s: Text, i: nat, k: nat)
    requires i <= k && i + 10 < |s| && KeyAt(s, i) && Traced(s, i)
    ensures TracedKey(Hidden(s, i), k) <==> Missed(s, i, k)
    decreases |s| - i, 0
  {
    hide KeyAt, Traced, ValueEnd, Zeroed, ValueStart;
    TracedBounds(s, i);
    AfterZeroing(s, i);
    assert Visited(s, i, i);
    var r, v, end := Hidden(s, i), ValueStart(s, i), LineEnd(s, ValueEnd(s, i));
    if k <= end {
      if i < k <= v {
        NoKeyInside(r, i, k);
      } else if v < k && k < |r| {
        NotKey(r, k);
      }
      if k == end && KeyAt(s, end) {
        ValueOnLine(s, end, end);
      }
    } else {
      var t := Zeroed(s, v, end);
      ZeroedBehind(s, v, end);
      LeftExactlyMissed(t, end + 1, k);
      MissedIsLocal(s, t, end + 1, k);
      forall j: nat | j <= end && Visited(s, i, j)
        ensures ValueEnd(s, j) <= LineEnd(s, ValueEnd(s, j)) <= end
      {
        ValueOnLine(s, j, end);
      }
      MissedLater(s, i, end + 1, k);
    }
  }

  /**
   No traced key is left exactly when each one of the text is a key the scan stops at
   or lies in the overwritten rest of a traced line.
   */
  lemma NoneLeftExactlyWhen(s: Text, i: nat)
    ensures NoneTraced(Hidden(s, i), i) <==>
            forall k: nat :: i <= k && TracedKey(s, k) ==> Visited(s, i, k) || Blanked(s, i, k)
  {
    hide KeyAt, Traced, Visited, Blanked;
    forall k: nat | i <= k
      ensures TracedKey(Hidden(s, i), k) <==> TracedKey(s, k) && !Visited(s, i, k) && !Blanked(s, i, k)
    {
      LeftExactlyMissed(s, i, k);
    }
  }

  /**
   On a text that has the key at line starts only, as /proc/<pid>/status has it,
   no traced key is left.
   */
  lemma StatusLinesAreClean(s: Text)
    requires forall k: nat :: KeyAt(s, k) ==> LineStart(s, k)
    ensures NoneTraced(Hidden(s, 0), 0)
  {
    hide KeyAt, Traced, ValueEnd;
    forall k: nat | KeyAt(s, k) ensures Visited(s, 0, k) {
      forall i: nat | i < k && KeyAt(s, i) ensures ValueEnd(s, i) != k {
        BeforeValueEnd(s, i);
      }
    }
    NoneLeftExactlyWhen(s, 0);
  }

  lemma BeforeValueEnd(s: Text, k: nat)
    requires KeyAt(s, k)
    ensures s[ValueEnd(s, k) - 1] != '\n'
  {
    KeyChars();
    assert s[k..k + 10][9] == s[k + 9];
  }

  /** Elsewhere one can be left: a traced key right behind an empty or zero value at which the scan stops. */
  lemma AdjacentKeyIsMissed(s: Text, i: nat)
    requires KeyAt(s, i) && !Traced(s, i) && TracedKey(s, ValueEnd(s, i))
    ensures TracedKey(Hidden(s, i), ValueEnd(s, i)) && !NoneTraced(Hidden(s, i), i)
  {
    hide KeyAt, Traced, ValueEnd, ValueStart;
    AfterZeroKey(s, i);
    LeftExactlyMissed(s, i, ValueEnd(s, i));
  }

  /** For example this text, and likewise with zeros as the first value. */
  lemma MissedExample(zeros: nat)
    ensures var s := KEY + Zeros(zeros) + KEY + ['5']; TracedKey(Hidden(s, 0), 10 + zeros)
  {
    hide Traced;
    var s := KEY + Zeros(zeros) + KEY + ['5'];
    KeyChars();
    assert s[0..10] == KEY && s[10 + zeros..20 + zeros] == KEY;
    assert SkipBlanks(s, 10) == 10;
    ZerosEnd(s, 10, 10 + zeros);
    NoDigitTraced(s, 0);
    FiveIsTraced(s, 10 + zeros);
    AdjacentKeyIsMissed(s, 0);
  }

  function Zeros(n: nat): (r: Text)
    ensures |r| == n && forall k :: 0 <= k < n ==> r[k] == '0'
  {
    seq(n, _ => '0')
  }

  lemma {:induction false} ZerosEnd(s: Text, i: nat, e: nat)
    requires i <= e < |s| && !Digit(s[e]) && forall k :: i <= k < e ==> s[k] == '0'
    ensures SkipDigits(s, i) == e
    decreases e - i
  {
    if i < e {
      ZerosEnd(s, i + 1, e);
    }
  }

  lemma NoDigitTraced(s: Text, i: nat)
    requires i + 10 <= |s| && forall k :: ValueStart(s, i) <= k < ValueEnd(s, i) ==> s[k] == '0'
    ensures !Traced(s, i)
  {
  }

  lemma FiveIsTraced(s: Text, i: nat)
    requires i + 11 == |s| && s[i + 10] == '5'
    ensures Traced(s, i)
  {
    assert SkipDigits(s, i + 11) == i + 11;
    assert ValueStart(s, i) == i + 10 && ValueEnd(s, i) == i + 11;
  }

  /** Only the value and the rest of the line of a traced key are changed. */
  lemma {:induction false} OnlyTracedLinesChange(s: Text, i: nat, p: nat)
    requires p < |s| && Hidden(s, i)[p] != s[p]
    ensures exists k :: i <= k && InTracedLine(s, k, p)
    decreases |s| - i
  {
    hide KeyAt, Traced, ValueStart, ValueEnd, Zeroed;
    if i + 10 < |s| {
      if !KeyAt(s, i) {
        OnlyTracedLinesChange(s, i + 1, p);
      } else if !Traced(s, i) {
        OnlyTracedLinesChange(s, ValueEnd(s, i) + 1, p);
      } else {
        TracedBounds(s, i);
        var v, end := ValueStart(s, i), LineEnd(s, ValueEnd(s, i));
        var t := Zeroed(s, v, end);
        if v <= p < end {
          assert InTracedLine(s, i, p);
        } else {
          ZeroedAt(s, v, end, p);
          OnlyTracedLinesChange(t, end + 1, p);
          var k :| end + 1 <= k && InTracedLine(t, k, p);
          ZeroedBehind(s, v, end);
          SameTracedLine(t, s, k, p);
        }
      }
    }
  }

  ghost predicate InTracedLine(s: Text, k: nat, p: nat) {
    KeyAt(s, k) && Traced(s, k) && ValueStart(s, k) <= p < LineEnd(s, ValueEnd(s, k))
  }

  lemma SameTracedLine(s: Text, t: Text, k: nat, p: nat)
    requires Agree(s, t, k, |s|) && InTracedLine(s, k, p)
    ensures InTracedLine(t, k, p)
  {
    hide KeyAt, Traced;
    KeyIsLocal(s, t, k);
    ValueIsLocal(s, t, k);
    SkipBlanksIsLocal(s, t, k + 10);
    LineEndIsLocal(s, t, ValueEnd(s, k));
  }

  lemma {:induction false} LineEndIsLocal(s: Text, r: Text, i: nat)
    requires i <= |s| && Agree(s, r, i, LineEnd(s, i) + 1)
    ensures LineEnd(r, i) == LineEnd(s, i)
    decreases |s| - i
  {
    if i < |s| && s[i] != '\n' {
      LineEndIsLocal(s, r, i + 1);
    }
  }

  /** sanitize_tracer_pid_in_buffer. */
  method SanitizeTracerPid(buf: array<char>, nbytes: nat) returns (n: nat)
    requires nbytes <= buf.Length
    modifies buf
    ensures n == nbytes && buf[..nbytes] == Hidden(old(buf[..nbytes]), 0)
    ensures forall k :: nbytes <= k < buf.Length ==> buf[k] == old(buf[k])
  {
    hide KeyAt, Zeroed;
    var i: nat := 0;
    while i + 10 < nbytes
      invariant Hidden(buf[..nbytes], i) == Hidden(old(buf[..nbytes]), 0)
      invariant forall k :: nbytes <= k < buf.Length ==> buf[k] == old(buf[k])
    {
      ghost var s := buf[..nbytes];
      var here := MatchesKey(buf, nbytes, i);
      if !here {
        i := i + 1;
        continue;
      }
      var valueStart, valueEnd, nonZero := ParseValue(buf, nbytes, i);
      if !nonZero {
        i := valueEnd + 1;
        continue;
      }
      TracedBounds(s, i);
      i := RewriteLine(buf, nbytes, valueStart, valueEnd);
      i := i + 1;
    }
    return nbytes;
  }

  method MatchesKey(buf: array<char>, nbytes: nat, i: nat) returns (b: bool)
    requires i + 10 < nbytes <= buf.Length
    ensures b <==> KeyAt(buf[..nbytes], i)
  {
    b := buf[i..i + 10] == KEY;
    assert buf[..nbytes][i..i + 10] == buf[i..i + 10];
  }

  /** Finds the value behind the key at `i`, and whether it is non-zero. */
  method ParseValue(buf: array<char>, nbytes: nat, i: nat) returns (valueStart: nat, valueEnd: nat, nonZero: bool)
    requires i + 10 < nbytes <= buf.Length
    ensures valueStart == ValueStart(buf[..nbytes], i) && valueEnd == ValueEnd(buf[..nbytes], i)
    ensures nonZero <==> Traced(buf[..nbytes], i)
  {
    ghost var s := buf[..nbytes];
    var j := i + 10;
    while j < nbytes && (buf[j] == ' ' || buf[j] == '\t')
      invariant j <= nbytes && SkipBlanks(s, j) == ValueStart(s, i)
    {
      j := j + 1;
    }
    valueStart := j;
    while j < nbytes && '0' <= buf[j] <= '9'
      invariant valueStart <= j <= nbytes && SkipDigits(s, j) == ValueEnd(s, i)
    {
      j := j + 1;
    }
    valueEnd := j;
    nonZero := false;
    for k := valueStart to valueEnd
      invariant !nonZero && forall m :: valueStart <= m < k ==> buf[m] == '0'
    {
      if buf[k] != '0' {
        nonZero := true;
        assert s[k] != '0';
        break;
      }
    }
  }

  /** Writes a zero and pads the rest of the line; answers where the line ends. */
  method RewriteLine(buf: array<char>, nbytes: nat, valueStart: nat, valueEnd: nat) returns (lineEnd: nat)
    requires valueStart < valueEnd <= nbytes <= buf.Length
    modifies buf
    ensures lineEnd == LineEnd(old(buf[..nbytes]), valueEnd)
    ensures buf[..nbytes] == Zeroed(old(buf[..nbytes]), valueStart, lineEnd)
    ensures forall k :: nbytes <= k < buf.Length ==> buf[k] == old(buf[k])
  {
    ghost var s := buf[..nbytes];
    lineEnd := valueEnd;
    while lineEnd < nbytes && buf[lineEnd] != '\n'
      invariant valueEnd <= lineEnd <= nbytes && LineEnd(s, lineEnd) == LineEnd(s, valueEnd)
    {
      lineEnd := lineEnd + 1;
    }
    buf[valueStart] := '0';
    for k := valueStart + 1 to lineEnd
      invariant buf[valueStart] == '0' && forall m :: valueStart < m < k ==> buf[m] == ' '
      invariant forall m :: 0 <= m < buf.Length && !(valueStart <= m < k) ==> buf[m] == old(buf[m])
    {
      buf[k] := ' ';
    }
  }
}
