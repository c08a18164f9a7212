/**
 The text of a `.framework` marker (framework_state and write_framework_state in
 zygiskd/src/zygiskd.rs).
 */
module FrameworkMarker {
  import opened Options
  import opened Texts

  datatype Record = Record(boot: string, pid: int, restarts: int, heals: int)

  const MIN32: int := -0x8000_0000
  const MAX32: int := 0x7fff_ffff
  const MAXU32: int := 0xffff_ffff

  function Text(r: Record): string {
    Join([r.boot, Show(r.pid), Show(r.restarts), Show(r.heals)], ':')
  }

  /** A counter that is missing or does not parse counts as zero. */
  function Counter(parts: seq<string>, k: nat): int {
    if k >= |parts| then 0
    else if parts[k] != [] && parts[k][0] == '-' then 0
    else
      var v := ParseInt(parts[k], 0, MAXU32);
      if v.Some? then v.value else 0
  }

  /** framework_state. */
  function Parse(text: string): Option<Record> {
    var parts := SplitAt(Trim(text), ':');
    if |parts| < 2 then None
    else
      var pid := ParseInt(parts[1], MIN32, MAX32);
      if pid.None? || parts[0] == [] then None else Some(Record(parts[0], pid.value, Counter(parts, 2), Counter(parts, 3)))
  }

  predicate InRange(r: Record) {
    MIN32 <= r.pid <= MAX32 && 0 <= r.restarts <= MAXU32 && 0 <= r.heals <= MAXU32
  }

  /** What current_boot_id answers: not empty, trimmed, and without the separator. */
  predicate BootId(boot: string) {
    boot != [] && ':' !in boot && Trimmed(boot)
  }

  lemma ShownHasNoColon(n: int)
    ensures ':' !in Show(n)
  {
    forall c | c in Show(n) ensures c != ':' {
      assert c == '-' || Digit(c);
    }
  }

  lemma CounterRoundTrip(parts: seq<string>, k: nat, n: int)
    requires k < |parts| && parts[k] == Show(n) && 0 <= n <= MAXU32
    ensures Counter(parts, k) == n
  {
    hide ParseInt;
    NumberRoundTrip(n, 0, MAXU32);
    assert Digit(Show(n)[0]);
  }

  lemma TextShape(r: Record)
    ensures Text(r) == r.boot + [':'] + Join([Show(r.pid), Show(r.restarts), Show(r.heals)], ':')
    ensures Text(r)[|Text(r)| - 1] == Show(r.heals)[|Show(r.heals)| - 1]
  {
    hide Show;
    ShownIsClean(r.heals);
    var a := [r.boot, Show(r.pid), Show(r.restarts), Show(r.heals)];
    assert a[1..] == [Show(r.pid), Show(r.restarts), Show(r.heals)] && a[1..][1..] == [Show(r.restarts), Show(r.heals)];
    assert a[1..][1..][1..] == [Show(r.heals)];
    assert Join(a[1..][1..], ':') == Show(r.restarts) + [':'] + Show(r.heals);
  }

  /** A marker is read back as it was written for every boot id the daemon writes. */
  lemma MarkerRoundTrip(r: Record)
    requires InRange(r) && BootId(r.boot)
    ensures Parse(Text(r)) == Some(r)
  {
    hide Show, ParseInt, Space, Counter;
    var parts := [r.boot, Show(r.pid), Show(r.restarts), Show(r.heals)];
    TextShape(r);
    ShownIsClean(r.heals);
    TrimOfTrimmed(Text(r));
    ShownHasNoColon(r.pid);
    ShownHasNoColon(r.restarts);
    ShownHasNoColon(r.heals);
    SplitUndoesJoin(parts, ':');
    NumberRoundTrip(r.pid, MIN32, MAX32);
    CounterRoundTrip(parts, 2, r.restarts);
    CounterRoundTrip(parts, 3, r.heals);
  }
}
