/**
 Functional nodes in the daemon (zygiskd/src/fn.rs): the record stream and its
 reading back, and the scan of the node directories.
 */
module FnNodes {
  import opened Options
  import opened Texts

  datatype Scope = All | Allowlist | Denylist

  /** A node as it is serialized; `status` is its wire text. */
  datatype Node = Node(id: string, name: string, version: string, versionCode: int, author: string, description: string,
                       entry: Option<string>, triggers: seq<string>, scope: Scope, apps: seq<string>, priority: int,
                       capabilities: seq<string>, uiSummary: Option<string>, status: string)

  const MIN32: int := -0x8000_0000
  const MAX32: int := 0x7fff_ffff

  // --- The wire format ------------------------------------------------------------------------------

  datatype Key = Id | Name | Version | VersionCode | Author | Description | EntryLib | Trigger | ScopeKey | Apps | Priority |
                 Capabilities | UiSummary | Status

  function KeyText(k: Key): string {
    match k
    case Id => "id"
    case Name => "name"
    case Version => "version"
    case VersionCode => "versionCode"
    case Author => "author"
    case Description => "description"
    case EntryLib => "entry"
    case Trigger => "trigger"
    case ScopeKey => "scope"
    case Apps => "apps"
    case Priority => "priority"
    case Capabilities => "capabilities"
    case UiSummary => "ui.summary"
    case Status => "status"
  }

  function ScopeText(s: Scope): string {
    match s
    case All => "all"
    case Allowlist => "allowlist"
    case Denylist => "denylist"
  }

  datatype Field = Field(key: Key, value: string)

  /** The value written for a key; the two optional keys may have none. */
  function ValueOf(n: Node, k: Key): Option<string> {
    match k
    case Id => Some(n.id)
    case Name => Some(n.name)
    case Version => Some(n.version)
    case VersionCode => Some(Show(n.versionCode))
    case Author => Some(n.author)
    case Description => Some(n.description)
    case EntryLib => n.entry
    case Trigger => Some(Join(n.triggers, ','))
    case ScopeKey => Some(ScopeText(n.scope))
    case Apps => Some(Join(n.apps, ','))
    case Priority => Some(Show(n.priority))
    case Capabilities => Some(Join(n.capabilities, ','))
    case UiSummary => n.uiSummary
    case Status => Some(n.status)
  }

  /** The order in which a record is written. */
  const KEYS: seq<Key> := [Id, Name, Version, VersionCode, Author, Description, EntryLib, Trigger, ScopeKey, Apps, Priority,
                           Capabilities, UiSummary, Status]

  function Picked(n: Node, keys: seq<Key>): seq<Field> {
    if keys == [] then []
    else
      (if ValueOf(n, keys[0]).Some? then [Field(keys[0], ValueOf(n, keys[0]).value)] else []) + Picked(n, keys[1..])
  }

  function Fields(n: Node): seq<Field> {
    Picked(n, KEYS)
  }

  function LineOf(f: Field): string {
    KeyText(f.key) + ['='] + f.value
  }

  function Record(fields: seq<Field>): string {
    if fields == [] then ['\n'] else LineOf(fields[0]) + ['\n'] + Record(fields[1..])
  }

  /** serialize_fn_nodes: the records, and an empty record at the end. */
  function Serialized(nodes: seq<Node>): string {
    if nodes == [] then ['\n'] else Record(Fields(nodes[0])) + Serialized(nodes[1..])
  }

  method SerializeFnNodes(nodes: seq<Node>) returns (out: string)
    ensures out == Serialized(nodes)
  {
    hide Record, Fields;
    out := [];
    for k := 0 to |nodes|
      invariant out + Serialized(nodes[k..]) == Serialized(nodes)
    {
      assert nodes[k..][1..] == nodes[k + 1..];
      assert out + (Record(Fields(nodes[k])) + Serialized(nodes[k + 1..])) == (out + Record(Fields(nodes[k]))) + Serialized(nodes[k + 1..]);
      out := out + Record(Fields(nodes[k]));
    }
    out := out + ['\n'];
  }

  // --- Reading a record ---------------------------------------------------------------------------------

  /** One line of a property file. */
  function ParseLine(line: string): Option<(string, string)> {
    var t := Trim(line);
    if t == [] || t[0] == '#' then None
    else
      var i := IndexOf(t, '=');
      if i == |t| then None else Some((Trim(t[..i]), Trim(t[i + 1..])))
  }

  function Put(props: map<string, string>, e: Option<(string, string)>): map<string, string> {
    if e.Some? then props[e.value.0 := e.value.1] else props
  }

  function Props(lines: seq<string>, props: map<string, string>): map<string, string> {
    if lines == [] then props else Props(lines[1..], Put(props, ParseLine(lines[0])))
  }

  /** parse_props: later lines win. */
  method ParseProps(lines: seq<string>) returns (props: map<string, string>)
    ensures props == Props(lines, map[])
  {
    hide ParseLine;
    props := map[];
    for k := 0 to |lines|
      invariant Props(lines[k..], props) == Props(lines, map[])
    {
      assert lines[k..][1..] == lines[k + 1..];
      var e := ParseLine(lines[k]);
      if e.Some? {
        props := props[e.value.0 := e.value.1];
      }
    }
  }

  predicate GoodKey(k: string) {
    k != [] && !Space(k[0]) && !Space(k[|k| - 1]) && k[0] != '#' && '=' !in k && '\n' !in k
  }

  /** A name for each key by two features of its text, so that keys are told apart without comparing texts. */
  function Shape(k: Key): (nat, char) {
    match k
    case Id => (2, 'i')
    case Name => (4, 'n')
    case Version => (7, 'v')
    case VersionCode => (11, 'v')
    case Author => (6, 'a')
    case Description => (11, 'd')
    case EntryLib => (5, 'e')
    case Trigger => (7, 't')
    case ScopeKey => (5, 's')
    case Apps => (4, 'a')
    case Priority => (8, 'p')
    case Capabilities => (12, 'c')
    case UiSummary => (10, 'u')
    case Status => (6, 's')
  }

  lemma KeyShape(k: Key)
    ensures |KeyText(k)| == Shape(k).0 && KeyText(k)[0] == Shape(k).1
  {
  }

  lemma KeyGood(k: Key)
    ensures GoodKey(KeyText(k))
  {
    if Rank(k) < 5 {
      KeyGoodFirst(k);
    } else if Rank(k) < 10 {
      KeyGoodSecond(k);
    }
  }

  lemma KeyGoodFirst(k: Key)
    requires Rank(k) < 5
    ensures GoodKey(KeyText(k))
  {
  }

  lemma KeyGoodSecond(k: Key)
    requires 5 <= Rank(k) < 10
    ensures GoodKey(KeyText(k))
  {
  }

  lemma KeysDiffer(a: Key, b: Key)
    requires a != b
    ensures KeyText(a) != KeyText(b)
  {
    hide KeyText;
    KeyShape(a);
    KeyShape(b);
  }

  /** A clean value comes back from its line. */
  lemma LineRoundTrip(k: string, v: string)
    requires GoodKey(k) && Clean(v)
    ensures ParseLine(k + ['='] + v) == Some((k, v))
    ensures '\n' !in k + ['='] + v && k + ['='] + v != []
  {
    var line := k + ['='] + v;
    assert !Space('=');
    TrimOfTrimmed(line);
    IndexOfIs(line, '=', |k|);
    assert line[..|k|] == k && line[|k| + 1..] == v;
    TrimOfTrimmed(k);
    TrimOfTrimmed(v);
  }

  predicate GoodFields(fields: seq<Field>) {
    (forall i :: 0 <= i < |fields| ==> Clean(fields[i].value)) &&
    forall i, j :: 0 <= i < j < |fields| ==> fields[i].key != fields[j].key
  }

  function LinesOf(fields: seq<Field>): seq<string> {
    if fields == [] then [] else [LineOf(fields[0])] + LinesOf(fields[1..])
  }

  predicate HasKey(fields: seq<Field>, k: Key) {
    exists i :: 0 <= i < |fields| && fields[i].key == k
  }

  /** The property map of a record holds exactly its fields. */
  lemma {:induction false} PropsOfRecord(fields: seq<Field>, props: map<string, string>, k: Key)
    requires GoodFields(fields)
    ensures HasKey(fields, k) ==>
              KeyText(k) in Props(LinesOf(fields), props) &&
              exists i :: 0 <= i < |fields| && fields[i] == Field(k, Props(LinesOf(fields), props)[KeyText(k)])
    ensures !HasKey(fields, k) ==>
              (KeyText(k) in Props(LinesOf(fields), props) <==> KeyText(k) in props) &&
              (KeyText(k) in props ==> Props(LinesOf(fields), props)[KeyText(k)] == props[KeyText(k)])
  {
    hide ParseLine, KeyText;
    if fields != [] {
      var f := fields[0];
      KeyGood(f.key);
      LineRoundTrip(KeyText(f.key), f.value);
      if f.key != k {
        KeysDiffer(f.key, k);
      }
      assert LinesOf(fields)[1..] == LinesOf(fields[1..]);
      var after := Put(props, ParseLine(LineOf(f)));
      assert after == props[KeyText(f.key) := f.value];
      PropsOfRecord(fields[1..], after, k);
      assert HasKey(fields, k) <==> f.key == k || HasKey(fields[1..], k);
    }
  }

  // --- Every field comes back -----------------------------------------------------------------------

  function Rank(k: Key): (r: nat)
    ensures r < 14
  {
    match k
    case Id => 0 case Name => 1 case Version => 2 case VersionCode => 3 case Author => 4 case Description => 5
    case EntryLib => 6 case Trigger => 7 case ScopeKey => 8 case Apps => 9 case Priority => 10 case Capabilities => 11
    case UiSummary => 12 case Status => 13
  }

  lemma KeysInOrder()
    ensures |KEYS| == 14 && (forall i :: 0 <= i < 14 ==> Rank(KEYS[i]) == i)
    ensures forall k :: KEYS[Rank(k)] == k
  {
    forall k ensures KEYS[Rank(k)] == k {
      KeyAtRank(k);
    }
  }

  lemma KeyAtRank(k: Key)
    ensures KEYS[Rank(k)] == k
  {
  }

  lemma {:induction false} PickedMembers(n: Node, keys: seq<Key>, f: Field)
    ensures f in Picked(n, keys) <==> f.key in keys && ValueOf(n, f.key) == Some(f.value)
  {
    hide ValueOf;
    if keys != [] {
      PickedMembers(n, keys[1..], f);
    }
  }

  ghost predicate DistinctKeys(fields: seq<Field>) {
    forall i, j :: 0 <= i < j < |fields| ==> fields[i].key != fields[j].key
  }

  lemma {:induction false} PickedDistinct(n: Node, keys: seq<Key>)
    requires forall i, j :: 0 <= i < j < |keys| ==> Rank(keys[i]) < Rank(keys[j])
    ensures DistinctKeys(Picked(n, keys))
  {
    hide ValueOf, Rank;
    if keys != [] {
      PickedDistinct(n, keys[1..]);
      var rest := Picked(n, keys[1..]);
      forall i | 0 <= i < |rest| ensures rest[i].key != keys[0] {
        PickedMembers(n, keys[1..], rest[i]);
        assert rest[i] in rest;
        var j :| 0 <= j < |keys[1..]| && keys[1..][j] == rest[i].key;
        assert keys[j + 1] == rest[i].key;
      }
    }
  }

  /** What the daemon parses from a descriptor it accepts: clean texts, non-empty items, 32-bit numbers. */
  predicate WellFormed(n: Node) {
    Clean(n.id) && Clean(n.name) && Clean(n.version) && Clean(n.author) && Clean(n.description) && Clean(n.status) &&
    (n.entry.Some? ==> Clean(n.entry.value)) && (n.uiSummary.Some? ==> Clean(n.uiSummary.value)) &&
    Items(n.triggers) && Items(n.apps) && Items(n.capabilities) &&
    MIN32 <= n.versionCode <= MAX32 && MIN32 <= n.priority <= MAX32
  }

  predicate Items(items: seq<string>) {
    forall i :: 0 <= i < |items| ==> Item(items[i]) && '\n' !in items[i]
  }

  lemma ValuesAreClean(n: Node, k: Key)
    requires WellFormed(n) && ValueOf(n, k).Some?
    ensures Clean(ValueOf(n, k).value)
  {
    hide Clean, Item;
    match k
    case VersionCode => ShownIsClean(n.versionCode);
    case Priority => ShownIsClean(n.priority);
    case Trigger => JoinIsClean(n.triggers);
    case Apps => JoinIsClean(n.apps);
    case Capabilities => JoinIsClean(n.capabilities);
    case ScopeKey => ScopeIsClean(n.scope);
    case _ =>
  }

  lemma ScopeIsClean(s: Scope)
    ensures Clean(ScopeText(s))
  {
  }

  function Get(props: map<string, string>, k: Key): Option<string> {
    if KeyText(k) in props then Some(props[KeyText(k)]) else None
  }

  lemma GoodRecord(n: Node)
    requires WellFormed(n)
    ensures GoodFields(Fields(n))
  {
    hide WellFormed, ValueOf, Clean, Picked, Rank;
    KeysInOrder();
    PickedDistinct(n, KEYS);
    var fields := Fields(n);
    forall i | 0 <= i < |fields| ensures Clean(fields[i].value) {
      PickedMembers(n, KEYS, fields[i]);
      assert fields[i] in fields;
      ValuesAreClean(n, fields[i].key);
    }
  }

  /** The property map of a node's record answers each key with the node's value. */
  lemma RecordAnswers(n: Node, k: Key)
    requires WellFormed(n)
    ensures Get(Props(LinesOf(Fields(n)), map[]), k) == ValueOf(n, k)
  {
    hide WellFormed, ValueOf, Clean, Picked, Rank, LinesOf, Props, KeyText;
    var fields := Fields(n);
    GoodRecord(n);
    PropsOfRecord(fields, map[], k);
    KeysInOrder();
    if HasKey(fields, k) {
      var i :| 0 <= i < |fields| && fields[i] == Field(k, Props(LinesOf(fields), map[])[KeyText(k)]);
      assert fields[i] in fields;
      PickedMembers(n, KEYS, fields[i]);
    } else if ValueOf(n, k).Some? {
      PickedMembers(n, KEYS, Field(k, ValueOf(n, k).value));
      assert false;
    }
  }

  function ParseScope(s: string): Option<Scope> {
    if s == "all" then Some(All) else if s == "allowlist" then Some(Allowlist) else if s == "denylist" then Some(Denylist) else None
  }

  /** The texts of a record. */
  datatype Raw = Raw(id: Option<string>, name: Option<string>, version: Option<string>, versionCode: Option<string>,
                     author: Option<string>, description: Option<string>, entry: Option<string>, trigger: Option<string>,
                     scope: Option<string>, apps: Option<string>, priority: Option<string>, capabilities: Option<string>,
                     uiSummary: Option<string>, status: Option<string>)

  function RawOf(p: map<string, string>): Raw {
    Raw(Get(p, Id), Get(p, Name), Get(p, Version), Get(p, VersionCode), Get(p, Author), Get(p, Description), Get(p, EntryLib),
        Get(p, Trigger), Get(p, ScopeKey), Get(p, Apps), Get(p, Priority), Get(p, Capabilities), Get(p, UiSummary), Get(p, Status))
  }

  predicate Complete(r: Raw) {
    r.id.Some? && r.name.Some? && r.version.Some? && r.versionCode.Some? && r.author.Some? && r.description.Some? &&
    r.trigger.Some? && r.scope.Some? && r.apps.Some? && r.priority.Some? && r.capabilities.Some? && r.status.Some?
  }

  function Typed(r: Raw): Option<Node> {
    if !Complete(r) then None
    else
      var versionCode := ParseInt(r.versionCode.value, MIN32, MAX32);
      var priority := ParseInt(r.priority.value, MIN32, MAX32);
      var scope := ParseScope(r.scope.value);
      if versionCode.None? || priority.None? || scope.None? then None
      else
        Some(Node(r.id.value, r.name.value, r.version.value, versionCode.value, r.author.value, r.description.value, r.entry,
                  ParseList(r.trigger.value), scope.value, ParseList(r.apps.value), priority.value,
                  ParseList(r.capabilities.value), r.uiSummary, r.status.value))
  }

  /** Reads a record back from its properties. */
  function Decode(p: map<string, string>): Option<Node> {
    Typed(RawOf(p))
  }

  /** The typed values come back from their texts. */
  lemma ValuesRoundTrip(n: Node)
    requires WellFormed(n)
    ensures ParseInt(Show(n.versionCode), MIN32, MAX32) == Some(n.versionCode)
    ensures ParseInt(Show(n.priority), MIN32, MAX32) == Some(n.priority)
    ensures ParseList(Join(n.triggers, ',')) == n.triggers && ParseList(Join(n.apps, ',')) == n.apps
    ensures ParseList(Join(n.capabilities, ',')) == n.capabilities && ParseScope(ScopeText(n.scope)) == Some(n.scope)
  {
    hide ParseInt, ParseList, Join, Show, ScopeText, ParseScope, Clean, Item;
    NumberRoundTrip(n.versionCode, MIN32, MAX32);
    NumberRoundTrip(n.priority, MIN32, MAX32);
    ListRoundTrip(n.triggers);
    ListRoundTrip(n.apps);
    ListRoundTrip(n.capabilities);
    ScopeRoundTrip(n.scope);
  }

  /** A record gives back every field of its node. */
  lemma RecordRoundTrip(n: Node)
    requires WellFormed(n)
    ensures Decode(Props(LinesOf(Fields(n)), map[])) == Some(n)
  {
    hide Props, LinesOf, Fields, ParseInt, ParseList, Get, Join, Show, ScopeText, ParseScope, WellFormed, KeyText, Typed, ValueOf;
    forall k ensures Get(Props(LinesOf(Fields(n)), map[]), k) == ValueOf(n, k) {
      RecordAnswers(n, k);
    }
    TypedRoundTrip(n);
  }

  lemma TypedRoundTrip(n: Node)
    requires WellFormed(n)
    ensures Typed(Raw(ValueOf(n, Id), ValueOf(n, Name), ValueOf(n, Version), ValueOf(n, VersionCode), ValueOf(n, Author),
                      ValueOf(n, Description), ValueOf(n, EntryLib), ValueOf(n, Trigger), ValueOf(n, ScopeKey), ValueOf(n, Apps),
                      ValueOf(n, Priority), ValueOf(n, Capabilities), ValueOf(n, UiSummary), ValueOf(n, Status))) == Some(n)
  {
    hide ParseInt, ParseList, Join, Show, ScopeText, ParseScope, WellFormed;
    ValuesRoundTrip(n);
  }

  lemma ScopeRoundTrip(s: Scope)
    ensures ParseScope(ScopeText(s)) == Some(s)
  {
  }

  // --- The stream -----------------------------------------------------------------------------------

  function IndexOfBlank(lines: seq<string>): (k: nat)
    ensures k <= |lines|
  {
    if lines == [] || lines[0] == [] then 0 else 1 + IndexOfBlank(lines[1..])
  }

  /** Splits the lines at blank ones; an empty record ends the stream. */
  function Records(lines: seq<string>): seq<seq<string>>
    decreases |lines|
  {
    var k := IndexOfBlank(lines);
    if k == 0 then []
    else if k == |lines| then [lines]
    else [lines[..k]] + Records(lines[k + 1..])
  }

  lemma GoodLine(f: Field)
    requires Clean(f.value)
    ensures '\n' !in LineOf(f) && LineOf(f) != []
  {
    hide KeyText, Clean;
    KeyGood(f.key);
    LineRoundTrip(KeyText(f.key), f.value);
  }

  lemma {:induction false} LinesOfRecord(fields: seq<Field>, rest: string)
    requires forall i :: 0 <= i < |fields| ==> Clean(fields[i].value)
    ensures Lines(Record(fields) + rest) == LinesOf(fields) + [[]] + Lines(rest)
  {
    hide KeyText, Clean, Lines, LineOf;
    if fields == [] {
      LinesOfLine([], rest);
      assert ['\n'] + rest == [] + ['\n'] + rest;
    } else {
      GoodLine(fields[0]);
      LinesOfRecord(fields[1..], rest);
      LinesOfLine(LineOf(fields[0]), Record(fields[1..]) + rest);
      assert Record(fields) + rest == LineOf(fields[0]) + ['\n'] + (Record(fields[1..]) + rest);
    }
  }

  lemma NoLinesBeforeBlank(rest: seq<string>)
    ensures IndexOfBlank([] + [[]] + rest) == 0
  {
  }

  lemma BlankIsLater(line: string, rest: seq<string>)
    requires line != []
    ensures IndexOfBlank([line] + rest) == 1 + IndexOfBlank(rest)
  {
    assert ([line] + rest)[1..] == rest;
  }

  lemma {:induction false} RecordEndsAtBlank(fields: seq<Field>, rest: seq<string>)
    requires forall i :: 0 <= i < |fields| ==> Clean(fields[i].value)
    ensures IndexOfBlank(LinesOf(fields) + [[]] + rest) == |LinesOf(fields)|
  {
    hide KeyText, Clean, LineOf, IndexOfBlank;
    if fields == [] {
      NoLinesBeforeBlank(rest);
    } else {
      GoodLine(fields[0]);
      RecordEndsAtBlank(fields[1..], rest);
      var tail := LinesOf(fields[1..]) + [[]] + rest;
      assert LinesOf(fields) + [[]] + rest == [LineOf(fields[0])] + tail;
      BlankIsLater(LineOf(fields[0]), tail);
    }
  }

  function DecodeAll(records: seq<seq<string>>): seq<Option<Node>> {
    if records == [] then [] else [Decode(Props(records[0], map[]))] + DecodeAll(records[1..])
  }

  function Somes(nodes: seq<Node>): seq<Option<Node>> {
    if nodes == [] then [] else [Some(nodes[0])] + Somes(nodes[1..])
  }

  /** Reading the serialized stream gives back exactly the nodes. */
  lemma {:induction false} StreamRoundTrip(nodes: seq<Node>)
    requires forall i :: 0 <= i < |nodes| ==> WellFormed(nodes[i])
    ensures DecodeAll(Records(Lines(Serialized(nodes)))) == Somes(nodes)
  {
    hide Lines, Props, Decode, Fields, WellFormed, Record, LinesOf;
    if nodes == [] {
      LinesOfLine([], []);
      assert [] + ['\n'] + [] == ['\n'];
    } else {
      var n, rest := nodes[0], Serialized(nodes[1..]);
      GoodRecord(n);
      LinesOfRecord(Fields(n), rest);
      RecordEndsAtBlank(Fields(n), Lines(rest));
      RecordIsNotEmpty(n);
      var lines := LinesOf(Fields(n)) + [[]] + Lines(rest);
      assert lines[..|LinesOf(Fields(n))|] == LinesOf(Fields(n)) && lines[|LinesOf(Fields(n))| + 1..] == Lines(rest);
      RecordRoundTrip(n);
      StreamRoundTrip(nodes[1..]);
    }
  }

  lemma RecordIsNotEmpty(n: Node)
    ensures LinesOf(Fields(n)) != []
  {
    assert KEYS[0] == Id;
  }

  // --- Descriptors -----------------------------------------------------------------------------------

  /** `is_valid_id`. */
  predicate ValidId(id: string) {
    id != [] && forall i :: 0 <= i < |id| ==> 'a' <= id[i] <= 'z' || '0' <= id[i] <= '9' || id[i] == '_' || id[i] == '-'
  }

  function NonEmpty(v: Option<string>): Option<string> {
    if v == Some([]) then None else v
  }

  function OrElse(v: Option<string>, default: string): string {
    if v.Some? then v.value else default
  }

  /**
   The node of a descriptor that parse_fn_node accepts: None when it is malformed.
   `payload` tells whether the entry library or a script exists.
   */
  function ParseNode(dirName: string, p: map<string, string>, status: string, payload: bool): Option<Node> {
    var id, name, version := NonEmpty(Get(p, Id)), NonEmpty(Get(p, Name)), NonEmpty(Get(p, Version));
    if id.None? || !ValidId(id.value) || id.value != dirName || name.None? || version.None? || Get(p, VersionCode).None? then None
    else
      var versionCode := ParseInt(Get(p, VersionCode).value, MIN32, MAX32);
      var scope := if Get(p, ScopeKey).None? then Some(All) else ParseScope(Get(p, ScopeKey).value);
      var priority := ParseInt(OrElse(Get(p, Priority), ""), MIN32, MAX32);
      if versionCode.None? || scope.None? || !payload then None
      else
        Some(Node(id.value, name.value, version.value, versionCode.value, OrElse(Get(p, Author), ""), OrElse(Get(p, Description), ""),
                  NonEmpty(Get(p, EntryLib)), if Get(p, Trigger).None? then ["app"] else ParseList(Get(p, Trigger).value),
                  scope.value, ParseList(OrElse(Get(p, Apps), "")), if priority.Some? then priority.value else 100,
                  ParseList(OrElse(Get(p, Capabilities), "")), NonEmpty(Get(p, UiSummary)), status))
  }

  /** What parse_fn_node can find wrong with a descriptor. */
  datatype Flaw = MissingId | InvalidId | IdMismatch | MissingName | MissingVersion | InvalidVersionCode | InvalidScope(value: string) |
                  NoPayload

  function Reason(f: Flaw): string {
    match f
    case MissingId => "missing id"
    case InvalidId => "invalid id"
    case IdMismatch => "id does not match directory name"
    case MissingName => "missing name"
    case MissingVersion => "missing version"
    case InvalidVersionCode => "invalid versionCode"
    case InvalidScope(value) => "invalid scope `" + value + "`"
    case NoPayload => "no entry library or script"
  }

  /** The first flaw, in the order of its checks. */
  function FirstFlaw(dirName: string, p: map<string, string>, payload: bool): Option<Flaw> {
    var id := Get(p, Id);
    if NonEmpty(id).None? then Some(MissingId)
    else if !ValidId(id.value) then Some(InvalidId)
    else if id.value != dirName then Some(IdMismatch)
    else if NonEmpty(Get(p, Name)).None? then Some(MissingName)
    else if NonEmpty(Get(p, Version)).None? then Some(MissingVersion)
    else if Get(p, VersionCode).None? || ParseInt(Get(p, VersionCode).value, MIN32, MAX32).None? then Some(InvalidVersionCode)
    else if Get(p, ScopeKey).Some? && ParseScope(Get(p, ScopeKey).value).None? then Some(InvalidScope(Get(p, ScopeKey).value))
    else if !payload then Some(NoPayload)
    else None
  }

  /** What stands for a broken node: its directory's name, defaults, and the reason as its status. */
  function Malformed(dirName: string, reason: string): Node {
    Node(dirName, dirName, "", 0, "", "", None, [], All, [], 100, [], None, "malformed:" + reason)
  }

  /** parse_fn_node, which always yields a node; `error` tells why the descriptor could not be read. */
  function Described(dirName: string, content: Option<seq<string>>, error: string, status: string, payload: bool): Node {
    if content.None? then Malformed(dirName, "unreadable fn.prop: " + error)
    else
      var p := Props(content.value, map[]);
      match FirstFlaw(dirName, p, payload)
      case Some(f) => Malformed(dirName, Reason(f))
      case None => RejectedExactlyWhenFlawed(dirName, p, status, payload); ParseNode(dirName, p, status, payload).value
  }

  /** A descriptor is rejected exactly when a flaw is found. */
  lemma RejectedExactlyWhenFlawed(dirName: string, p: map<string, string>, status: string, payload: bool)
    ensures ParseNode(dirName, p, status, payload).None? <==> FirstFlaw(dirName, p, payload).Some?
  {
    hide ParseInt, ParseScope, ParseList, KeyText, ValidId;
  }

  ghost predicate CleanValues(p: map<string, string>) {
    forall k :: k in p ==> Clean(p[k])
  }

  lemma {:induction false} TrimEndKeeps(s: string)
    ensures |TrimEnd(s)| <= |s| && TrimEnd(s) == s[..|TrimEnd(s)|]
    ensures TrimEnd(s) == [] || !Space(TrimEnd(s)[|TrimEnd(s)| - 1])
  {
    if s != [] && Space(s[|s| - 1]) {
      TrimEndKeeps(s[..|s| - 1]);
    }
  }

  lemma {:induction false} TrimStartKeeps(s: string)
    ensures forall c :: c in TrimStart(s) ==> c in s
    ensures TrimStart(s) == [] || !Space(TrimStart(s)[0])
  {
    if s != [] && Space(s[0]) {
      TrimStartKeeps(s[1..]);
    }
  }

  lemma TrimIsTrimmed(s: string)
    ensures Trimmed(Trim(s)) && forall c :: c in Trim(s) ==> c in s
  {
    TrimStartKeeps(s);
    TrimEndKeeps(TrimStart(s));
  }

  lemma ParsedLineIsClean(line: string)
    requires '\n' !in line
    ensures ParseLine(line).Some? ==> Clean(ParseLine(line).value.1)
  {
    hide Trimmed, Trim;
    var t := Trim(line);
    TrimIsTrimmed(line);
    if ParseLine(line).Some? {
      TrimIsTrimmed(t[IndexOf(t, '=') + 1..]);
    }
  }

  lemma {:induction false} ParsedValuesAreClean(lines: seq<string>, props: map<string, string>)
    requires CleanValues(props) && forall i :: 0 <= i < |lines| ==> '\n' !in lines[i]
    ensures CleanValues(Props(lines, props))
  {
    hide ParseLine, Clean;
    if lines != [] {
      ParsedLineIsClean(lines[0]);
      ParsedValuesAreClean(lines[1..], Put(props, ParseLine(lines[0])));
    }
  }

  lemma {:induction false} PiecesOf(s: string, i: nat)
    requires i < |SplitAt(s, ',')|
    ensures ',' !in SplitAt(s, ',')[i] && forall c :: c in SplitAt(s, ',')[i] ==> c in s
    decreases |s|
  {
    var k := IndexOf(s, ',');
    if k < |s| && i > 0 {
      PiecesOf(s[k + 1..], i - 1);
    }
  }

  lemma {:induction false} KeptPieces(pieces: seq<string>, s: string)
    requires '\n' !in s && forall i :: 0 <= i < |pieces| ==> ',' !in pieces[i] && forall c :: c in pieces[i] ==> c in s
    ensures Items(NonEmptyTrimmed(pieces))
  {
    hide Trim, Trimmed;
    if pieces != [] {
      TrimIsTrimmed(pieces[0]);
      KeptPieces(pieces[1..], s);
    }
  }

  lemma ParsedListIsGood(s: string)
    requires '\n' !in s
    ensures Items(ParseList(s))
  {
    hide NonEmptyTrimmed, Items;
    forall i | 0 <= i < |SplitAt(s, ',')| ensures ',' !in SplitAt(s, ',')[i] && forall c :: c in SplitAt(s, ',')[i] ==> c in s {
      PiecesOf(s, i);
    }
    KeptPieces(SplitAt(s, ','), s);
  }

  /** Every node the daemon accepts can be streamed: its fields come back as they were parsed. */
  lemma AcceptedNodesAreWellFormed(dirName: string, lines: seq<string>, status: string, payload: bool)
    requires (forall i :: 0 <= i < |lines| ==> '\n' !in lines[i]) && Clean(status)
    ensures var n := ParseNode(dirName, Props(lines, map[]), status, payload);
            n.Some? ==> WellFormed(n.value) && ValidId(n.value.id) && n.value.id == dirName
  {
    hide Props, ParseList, ParseInt, ParseScope, Items, KeyText, ValidId, Trimmed;
    var p := Props(lines, map[]);
    ParsedValuesAreClean(lines, map[]);
    assert forall k :: Get(p, k).Some? ==> Clean(Get(p, k).value);
    ParsedListIsGood(OrElse(Get(p, Trigger), ""));
    ParsedListIsGood(OrElse(Get(p, Apps), ""));
    ParsedListIsGood(OrElse(Get(p, Capabilities), ""));
    DefaultsAreGood();
  }

  /** A reason makes a clean status when it is on one line and does not end in white space. */
  lemma ReasonIsClean(reason: string)
    requires reason != [] && '\n' !in reason && !Space(reason[|reason| - 1])
    ensures Clean("malformed:" + reason)
  {
    assert "malformed:"[0] == 'm' && '\n' !in "malformed:";
  }

  lemma FixedReason(f: Flaw)
    requires !f.InvalidScope?
    ensures Reason(f) != [] && '\n' !in Reason(f) && !Space(Reason(f)[|Reason(f)| - 1])
  {
    hide Reason, Space;
    FixedReasonIsOneLine(f);
    FixedReasonEnds(f);
  }

  lemma FixedReasonIsOneLine(f: Flaw)
    requires !f.InvalidScope?
    ensures '\n' !in Reason(f)
  {
  }

  lemma FixedReasonEnds(f: Flaw)
    requires !f.InvalidScope?
    ensures Reason(f) != [] && !Space(Reason(f)[|Reason(f)| - 1])
  {
  }

  lemma ScopeReason(value: string)
    requires '\n' !in value
    ensures var reason := "invalid scope `" + value + "`"; reason != [] && '\n' !in reason && !Space(reason[|reason| - 1])
  {
    assert '\n' !in "invalid scope `" && '\n' !in "`";
  }

  lemma UnreadableReason(error: string)
    requires error != [] && Clean(error)
    ensures var reason := "unreadable fn.prop: " + error; reason != [] && '\n' !in reason && !Space(reason[|reason| - 1])
  {
    assert '\n' !in "unreadable fn.prop: ";
  }

  lemma FlawIsClean(f: Flaw)
    requires f.InvalidScope? ==> Clean(f.value)
    ensures Clean("malformed:" + Reason(f))
  {
    hide Space, Clean;
    if f.InvalidScope? {
      CleanIsOneLine(f.value);
      ScopeReason(f.value);
    } else {
      FixedReason(f);
    }
    ReasonIsClean(Reason(f));
  }

  lemma ScopeOfFlaw(dirName: string, lines: seq<string>, payload: bool)
    requires forall i :: 0 <= i < |lines| ==> '\n' !in lines[i]
    ensures var f := FirstFlaw(dirName, Props(lines, map[]), payload); f.Some? && f.value.InvalidScope? ==> Clean(f.value.value)
  {
    hide Props, ParseInt, ParseScope, KeyText, ValidId, Clean;
    ParsedValuesAreClean(lines, map[]);
  }

  lemma CleanIsOneLine(s: string)
    requires Clean(s)
    ensures '\n' !in s
  {
  }

  lemma MalformedIsWellFormed(dirName: string, reason: string)
    requires Clean("malformed:" + reason)
    ensures WellFormed(Malformed(dirName, reason)) <==> Clean(dirName)
  {
    hide Trimmed;
    DefaultsAreGood();
  }

  lemma ValidIdIsClean(id: string)
    requires ValidId(id)
    ensures Clean(id)
  {
  }

  /** Accepted or broken, the fields of a directory's node are clean exactly when the directory's name is. */
  lemma DescribedIsWellFormedExactlyWhen(dirName: string, content: Option<seq<string>>, error: string, status: string, payload: bool)
    requires Clean(status) && (content.Some? ==> forall i :: 0 <= i < |content.value| ==> '\n' !in content.value[i])
    requires content.None? ==> error != [] && Clean(error)
    ensures WellFormed(Described(dirName, content, error, status, payload)) <==> Clean(dirName)
    ensures Described(dirName, content, error, status, payload).id == dirName
  {
    hide Props, Clean, FirstFlaw, ParseNode, WellFormed, ValidId, Reason;
    if content.None? {
      UnreadableReason(error);
      ReasonIsClean("unreadable fn.prop: " + error);
      MalformedIsWellFormed(dirName, "unreadable fn.prop: " + error);
    } else {
      var f := FirstFlaw(dirName, Props(content.value, map[]), payload);
      RejectedExactlyWhenFlawed(dirName, Props(content.value, map[]), status, payload);
      if f.Some? {
        ScopeOfFlaw(dirName, content.value, payload);
        FlawIsClean(f.value);
        MalformedIsWellFormed(dirName, Reason(f.value));
      } else {
        AcceptedNodesAreWellFormed(dirName, content.value, status, payload);
        ValidIdIsClean(dirName);
      }
    }
  }

  // --- What comes back, exactly -------------------------------------------------------------------

  lemma {:induction false} LinesAreOneLine(s: string)
    ensures forall i :: 0 <= i < |Lines(s)| ==> '\n' !in Lines(s)[i]
    decreases |s|
  {
    if s != [] && IndexOf(s, '\n') < |s| {
      LinesAreOneLine(s[IndexOf(s, '\n') + 1..]);
    }
  }

  lemma {:induction false} RecordsAreLines(lines: seq<string>)
    requires forall i :: 0 <= i < |lines| ==> '\n' !in lines[i]
    ensures forall r :: r in Records(lines) ==> forall i :: 0 <= i < |r| ==> '\n' !in r[i]
    decreases |lines|
  {
    var k := IndexOfBlank(lines);
    if 0 < k < |lines| {
      RecordsAreLines(lines[k + 1..]);
    }
  }

  /** Whatever stream is read, a node that comes out of it has a clean id. */
  lemma {:induction false} DecodedIdsAreClean(records: seq<seq<string>>)
    requires forall r :: r in records ==> forall i :: 0 <= i < |r| ==> '\n' !in r[i]
    ensures |DecodeAll(records)| == |records|
    ensures forall i :: 0 <= i < |records| && DecodeAll(records)[i].Some? ==> Clean(DecodeAll(records)[i].value.id)
  {
    hide Props, Clean, ParseInt, ParseScope, ParseList, KeyText;
    if records != [] {
      ParsedValuesAreClean(records[0], map[]);
      DecodedIdsAreClean(records[1..]);
    }
  }

  /** A node directory and what is found in it; `error` tells why its descriptor cannot be read. */
  datatype Directory = Directory(name: string, content: Option<seq<string>>, error: string, status: string, payload: bool)

  ghost predicate Legible(d: Directory) {
    Clean(d.status) && (d.content.Some? ==> forall i :: 0 <= i < |d.content.value| ==> '\n' !in d.content.value[i]) &&
    (d.content.None? ==> d.error != [] && Clean(d.error))
  }

  function NodeOf(d: Directory): Node {
    Described(d.name, d.content, d.error, d.status, d.payload)
  }

  function NodesOf(ds: seq<Directory>): (r: seq<Node>)
    ensures |r| == |ds| && forall i :: 0 <= i < |r| ==> r[i] == NodeOf(ds[i])
  {
    seq(|ds|, i requires 0 <= i < |ds| => NodeOf(ds[i]))
  }

  lemma {:induction false} SomesAt(nodes: seq<Node>)
    ensures |Somes(nodes)| == |nodes| && forall i :: 0 <= i < |nodes| ==> Somes(nodes)[i] == Some(nodes[i])
  {
    if nodes != [] {
      SomesAt(nodes[1..]);
    }
  }

  /**
   Reading the stream of any directories' nodes, accepted or broken, gives back
   exactly those nodes if and only if no directory's name has a line break or white
   space at an end.
   */
  lemma StreamComesBackExactlyWhen(ds: seq<Directory>)
    requires forall i :: 0 <= i < |ds| ==> Legible(ds[i])
    ensures DecodeAll(Records(Lines(Serialized(NodesOf(ds))))) == Somes(NodesOf(ds)) <==>
            forall i :: 0 <= i < |ds| ==> Clean(ds[i].name)
  {
    hide Lines, Records, DecodeAll, Somes, Serialized, WellFormed, Clean, Described;
    var nodes := NodesOf(ds);
    forall i | 0 <= i < |ds| ensures (WellFormed(nodes[i]) <==> Clean(ds[i].name)) && nodes[i].id == ds[i].name {
      var d := ds[i];
      DescribedIsWellFormedExactlyWhen(d.name, d.content, d.error, d.status, d.payload);
    }
    if forall i :: 0 <= i < |ds| ==> Clean(ds[i].name) {
      StreamRoundTrip(nodes);
    } else {
      var lines := Lines(Serialized(nodes));
      LinesAreOneLine(Serialized(nodes));
      RecordsAreLines(lines);
      DecodedIdsAreClean(Records(lines));
      SomesAt(nodes);
      var i :| 0 <= i < |ds| && !Clean(ds[i].name);
      assert Somes(nodes)[i] == Some(nodes[i]);
    }
  }

  lemma DefaultsAreGood()
    ensures Items(["app"]) && Clean("")
  {
    assert "app" == ['a', 'p', 'p'];
  }
}
