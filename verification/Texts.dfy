/** Line, list and number syntax as the daemon's standard library reads and writes it. */
module Texts {
  import opened Options

  // --- Splitting ------------------------------------------------------------------------------------

  /** The first position of `c`, or the length. */
  function IndexOf(s: string, c: char): (i: nat)
    ensures i <= |s| && (i < |s| ==> s[i] == c) && forall k :: 0 <= k < i ==> s[k] != c
  {
    if s == [] || s[0] == c then 0 else 1 + IndexOf(s[1..], c)
  }

  lemma IndexOfIs(s: string, c: char, i: nat)
    requires i <= |s| && (i < |s| ==> s[i] == c) && forall k :: 0 <= k < i ==> s[k] != c
    ensures IndexOf(s, c) == i
  {
  }

  /** The pieces between the separators; always at least one. */
  function SplitAt(s: string, c: char): (r: seq<string>)
    ensures |r| > 0
    decreases |s|
  {
    var i := IndexOf(s, c);
    if i == |s| then [s] else [s[..i]] + SplitAt(s[i + 1..], c)
  }

  function Join(items: seq<string>, c: char): string {
    if items == [] then [] else if |items| == 1 then items[0] else items[0] + [c] + Join(items[1..], c)
  }

  lemma {:induction false} SplitUndoesJoin(items: seq<string>, c: char)
    requires items != [] && forall i :: 0 <= i < |items| ==> c !in items[i]
    ensures SplitAt(Join(items, c), c) == items
  {
    var s := Join(items, c);
    if |items| == 1 {
      IndexOfIs(s, c, |s|);
    } else {
      IndexOfIs(s, c, |items[0]|);
      assert s[..|items[0]|] == items[0] && s[|items[0]| + 1..] == Join(items[1..], c);
      SplitUndoesJoin(items[1..], c);
    }
  }

  /** str::lines: a final newline does not begin another line. */
  function Lines(s: string): seq<string>
    decreases |s|
  {
    if s == [] then []
    else
      var i := IndexOf(s, '\n');
      if i == |s| then [s] else [s[..i]] + Lines(s[i + 1..])
  }

  lemma LinesOfLine(line: string, rest: string)
    requires '\n' !in line
    ensures Lines(line + ['\n'] + rest) == [line] + Lines(rest)
  {
    var s := line + ['\n'] + rest;
    IndexOfIs(s, '\n', |line|);
    assert s[..|line|] == line && s[|line| + 1..] == rest;
  }

  // --- Trimming -------------------------------------------------------------------------------------

  /** The Unicode White_Space characters, which str::trim removes. */
  predicate Space(c: char) {
    '\t' <= c <= '\r' || c == ' ' || c == '\U{0085}' || c == '\U{00A0}' || c == '\U{1680}' || '\U{2000}' <= c <= '\U{200A}' ||
    c == '\U{2028}' || c == '\U{2029}' || c == '\U{202F}' || c == '\U{205F}' || c == '\U{3000}'
  }

  function TrimStart(s: string): string {
    if s != [] && Space(s[0]) then TrimStart(s[1..]) else s
  }

  function TrimEnd(s: string): string {
    if s != [] && Space(s[|s| - 1]) then TrimEnd(s[..|s| - 1]) else s
  }

  function Trim(s: string): string {
    TrimEnd(TrimStart(s))
  }

  /** Neither end is white space: trimming changes nothing. */
  predicate Trimmed(s: string) {
    s == [] || (!Space(s[0]) && !Space(s[|s| - 1]))
  }

  lemma TrimOfTrimmed(s: string)
    requires Trimmed(s)
    ensures Trim(s) == s
  {
  }

  /** A value as it comes out of a property file: one line, trimmed. */
  predicate Clean(s: string) {
    Trimmed(s) && '\n' !in s
  }

  // --- Comma-separated lists ------------------------------------------------------------------------

  /** A list item as it comes out of parse_list. */
  predicate Item(s: string) {
    s != [] && Trimmed(s) && ',' !in s
  }

  function NonEmptyTrimmed(pieces: seq<string>): seq<string> {
    if pieces == [] then []
    else (if Trim(pieces[0]) != [] then [Trim(pieces[0])] else []) + NonEmptyTrimmed(pieces[1..])
  }

  /** parse_list of a present value. */
  function ParseList(value: string): seq<string> {
    NonEmptyTrimmed(SplitAt(value, ','))
  }

  lemma {:induction false} ItemsAreKept(items: seq<string>)
    requires forall i :: 0 <= i < |items| ==> Item(items[i])
    ensures NonEmptyTrimmed(items) == items
  {
    if items != [] {
      TrimOfTrimmed(items[0]);
      ItemsAreKept(items[1..]);
    }
  }

  /** parse_list reads back what join wrote. */
  lemma ListRoundTrip(items: seq<string>)
    requires forall i :: 0 <= i < |items| ==> Item(items[i])
    ensures ParseList(Join(items, ',')) == items
  {
    if items == [] {
      assert SplitAt([], ',') == [[]];
      assert NonEmptyTrimmed([[]]) == NonEmptyTrimmed([]);
    } else {
      SplitUndoesJoin(items, ',');
      ItemsAreKept(items);
    }
  }

  /** A joined list is itself a clean value. */
  lemma {:induction false} JoinIsClean(items: seq<string>)
    requires forall i :: 0 <= i < |items| ==> Item(items[i]) && '\n' !in items[i]
    ensures Clean(Join(items, ','))
    ensures items != [] ==> items[0] != [] && Join(items, ',') != [] && Join(items, ',')[0] == items[0][0]
  {
    if |items| > 1 {
      JoinIsClean(items[1..]);
    }
  }

  // --- Decimal numbers ----------------------------------------------------------------------------------

  predicate Digit(c: char) {
    '0' <= c <= '9'
  }

  function DigitChar(d: nat): (c: char)
    requires d < 10
    ensures Digit(c) && DigitValue(c) == d
  {
    '0' + d as char
  }

  function DigitValue(c: char): nat
    requires Digit(c)
  {
    c as int - '0' as int
  }

  function ShowNat(n: nat): (s: string)
    ensures s != [] && forall i :: 0 <= i < |s| ==> Digit(s[i])
  {
    if n < 10 then [DigitChar(n)] else ShowNat(n / 10) + [DigitChar(n % 10)]
  }

  function Show(n: int): string {
    if n < 0 then ['-'] + ShowNat(-n) else ShowNat(n)
  }

  predicate AllDigits(s: string) {
    s != [] && forall i :: 0 <= i < |s| ==> Digit(s[i])
  }

  function Value(s: string): nat
    requires forall i :: 0 <= i < |s| ==> Digit(s[i])
  {
    if s == [] then 0 else 10 * Value(s[..|s| - 1]) + DigitValue(s[|s| - 1])
  }

  /** str::parse for a signed integer type of the given bounds. */
  function ParseInt(s: string, min: int, max: int): (r: Option<int>)
    ensures r.Some? ==> min <= r.value <= max
  {
    var negative := s != [] && s[0] == '-';
    var digits := if s != [] && (s[0] == '-' || s[0] == '+') then s[1..] else s;
    if !AllDigits(digits) then None
    else
      var magnitude: int := Value(digits);
      var v := if negative then -magnitude else magnitude;
      if min <= v <= max then Some(v) else None
  }

  lemma {:induction false} ValueOfShown(n: nat)
    ensures Value(ShowNat(n)) == n
  {
    if n >= 10 {
      ValueOfShown(n / 10);
      assert ShowNat(n)[..|ShowNat(n)| - 1] == ShowNat(n / 10);
    }
  }

  /** Parsing reads back every number of the type. */
  lemma NumberRoundTrip(n: int, min: int, max: int)
    requires min <= n <= max
    ensures ParseInt(Show(n), min, max) == Some(n)
  {
    hide Value, ShowNat;
    ValueOfShown(if n < 0 then -n else n);
    if n < 0 {
      assert Show(n)[1..] == ShowNat(-n);
    } else {
      assert Digit(Show(n)[0]);
    }
  }

  /** Digits and signs are neither white space nor separators. */
  lemma ShownIsClean(n: int)
    ensures Show(n) != [] && Clean(Show(n)) && ',' !in Show(n)
  {
    forall c | c in Show(n) ensures !Space(c) && c != ',' && c != '\n' {
      assert c == '-' || Digit(c);
    }
  }
}
