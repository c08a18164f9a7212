/**
 The APatch package policy file (zygiskd/src/root_impl/apatch.rs): its CSV lines,
 the whole file, and what the daemon answers from it.
 */
module ApatchCsv {
  import opened Options
  import opened Texts

  // --- Lines ------------------------------------------------------------------------------------------

  /** What parse_csv_line makes of the rest of a line. */
  function Fields(s: string, inQuotes: bool, field: string): (r: seq<string>)
    ensures |r| > 0
    decreases |s|
  {
    if s == [] then [field]
    else if s[0] == '"' && inQuotes then
      if |s| > 1 && s[1] == '"' then Fields(s[2..], true, field + ['"']) else Fields(s[1..], false, field)
    else if s[0] == '"' then Fields(s[1..], true, field)
    else if s[0] == ',' && !inQuotes then [field] + Fields(s[1..], false, [])
    else Fields(s[1..], inQuotes, field + [s[0]])
  }

  /** parse_csv_line. */
  method ParseCsvLine(line: string) returns (fields: seq<string>)
    ensures fields == Fields(line, false, [])
  {
    fields := [];
    var field, inQuotes, rest := [], false, line;
    while rest != []
      invariant fields + Fields(rest, inQuotes, field) == Fields(line, false, [])
      decreases |rest|
    {
      var c := rest[0];
      ghost var before := Fields(rest, inQuotes, field);
      if c == '"' && inQuotes {
        if |rest| > 1 && rest[1] == '"' {
          rest := rest[1..];
          field := field + ['"'];
        } else {
          inQuotes := false;
        }
      } else if c == '"' {
        inQuotes := true;
      } else if c == ',' && !inQuotes {
        assert fields + before == (fields + [field]) + Fields(rest[1..], false, []);
        fields := fields + [field];
        field := [];
      } else {
        field := field + [c];
      }
      rest := rest[1..];
    }
    fields := fields + [field];
  }

  predicate NeedsQuotes(field: string) {
    ',' in field || '"' in field || '\n' in field
  }

  function Doubled(field: string): string {
    if field == [] then [] else (if field[0] == '"' then ['"', '"'] else [field[0]]) + Doubled(field[1..])
  }

  /** csv_escape. */
  function Escape(field: string): string {
    if NeedsQuotes(field) then ['"'] + Doubled(field) + ['"'] else field
  }

  function EscapeAll(fields: seq<string>): seq<string> {
    if fields == [] then [] else [Escape(fields[0])] + EscapeAll(fields[1..])
  }

  /** Text that needs no quotes is read as it stands. */
  lemma {:induction false} PlainField(f: string, rest: string, field: string)
    requires ',' !in f && '"' !in f
    ensures Fields(f + rest, false, field) == Fields(rest, false, field + f)
  {
    if f == [] {
      assert f + rest == rest && field + f == field;
    } else {
      assert (f + rest)[1..] == f[1..] + rest && field + f == field + [f[0]] + f[1..];
      PlainField(f[1..], rest, field + [f[0]]);
    }
  }

  /** Inside quotes a doubled text is read as the text, up to the closing quote. */
  lemma {:induction false} QuotedField(f: string, rest: string, field: string)
    requires rest == [] || rest[0] != '"'
    ensures Fields(Doubled(f) + ['"'] + rest, true, field) == Fields(rest, false, field + f)
  {
    var s := Doubled(f) + ['"'] + rest;
    if f == [] {
      assert s == ['"'] + rest && s[1..] == rest && field + f == field;
    } else {
      var tail := Doubled(f[1..]) + ['"'] + rest;
      assert field + f == field + [f[0]] + f[1..];
      if f[0] == '"' {
        assert s[0] == s[1] == '"' && s[2..] == tail;
      } else {
        assert s[0] == f[0] && s[1..] == tail;
      }
      QuotedField(f[1..], rest, field + [f[0]]);
    }
  }

  lemma OpenQuote(inside: string)
    ensures Fields(['"'] + inside, false, []) == Fields(inside, true, [])
  {
    assert (['"'] + inside)[1..] == inside;
  }

  lemma EscapedField(f: string, rest: string)
    requires rest == [] || rest[0] == ','
    ensures Fields(Escape(f) + rest, false, []) == Fields(rest, false, f)
  {
    hide Fields, Doubled;
    if NeedsQuotes(f) {
      var inside := Doubled(f) + ['"'] + rest;
      assert Escape(f) + rest == ['"'] + inside;
      OpenQuote(inside);
      QuotedField(f, rest, []);
      assert [] + f == f;
    } else {
      PlainField(f, rest, []);
      assert [] + f == f;
    }
  }

  /** Parsing undoes joining escaped fields, for every non-empty list. */
  lemma {:induction false} LineRoundTrip(fields: seq<string>)
    requires fields != []
    ensures Fields(Join(EscapeAll(fields), ','), false, []) == fields
  {
    hide Escape;
    if |fields| == 1 {
      assert EscapeAll(fields) == [Escape(fields[0])];
      EscapedField(fields[0], []);
      assert Escape(fields[0]) + [] == Escape(fields[0]);
    } else {
      var rest := Join(EscapeAll(fields[1..]), ',');
      var tail := [','] + rest;
      assert EscapeAll(fields)[1..] == EscapeAll(fields[1..]);
      assert Join(EscapeAll(fields), ',') == Escape(fields[0]) + tail;
      EscapedField(fields[0], tail);
      assert tail[1..] == rest;
      LineRoundTrip(fields[1..]);
    }
  }

  /** The parser invents no characters. */
  lemma {:induction false} FieldsKeepOut(s: string, inQuotes: bool, field: string, c: char)
    requires c !in s && c !in field && c != '"'
    ensures forall f :: f in Fields(s, inQuotes, field) ==> c !in f
    decreases |s|
  {
    if s != [] {
      if s[0] == '"' && inQuotes {
        if |s| > 1 && s[1] == '"' {
          FieldsKeepOut(s[2..], true, field + ['"'], c);
        } else {
          FieldsKeepOut(s[1..], false, field, c);
        }
      } else if s[0] == '"' {
        FieldsKeepOut(s[1..], true, field, c);
      } else if s[0] == ',' && !inQuotes {
        FieldsKeepOut(s[1..], false, [], c);
      } else {
        FieldsKeepOut(s[1..], inQuotes, field + [s[0]], c);
      }
    }
  }

  // --- The file -----------------------------------------------------------------------------------------

  datatype PackageConfig = PackageConfig(pkg: string, exclude: bool, allow: bool, uid: int, toUid: int, sctx: string)

  const MIN32: int := -0x8000_0000
  const MAX32: int := 0x7fff_ffff

  function Flag(b: bool): string {
    if b then "1" else "0"
  }

  function RowFields(c: PackageConfig): seq<string> {
    [c.pkg, Flag(c.exclude), Flag(c.allow), Show(c.uid), Show(c.toUid), c.sctx]
  }

  function Row(c: PackageConfig): string {
    Join(EscapeAll(RowFields(c)), ',')
  }

  const HEADER := "pkg,exclude,allow,uid,to_uid,sctx"

  function Rows(configs: seq<PackageConfig>): string {
    if configs == [] then [] else Row(configs[0]) + ['\n'] + Rows(configs[1..])
  }

  /** The content write_package_config puts in place. */
  function Written(configs: seq<PackageConfig>): string {
    HEADER + ['\n'] + Rows(configs)
  }

  method WritePackageConfig(configs: seq<PackageConfig>) returns (content: string)
    ensures content == Written(configs)
  {
    hide Row;
    content := HEADER + ['\n'];
    for k := 0 to |configs|
      invariant content + Rows(configs[k..]) == Written(configs)
    {
      assert configs[k..][1..] == configs[k + 1..];
      assert content + (Row(configs[k]) + ['\n'] + Rows(configs[k + 1..])) == (content + Row(configs[k]) + ['\n']) + Rows(configs[k + 1..]);
      content := content + Row(configs[k]) + ['\n'];
    }
  }

  function StripCr(line: string): string {
    if line != [] && line[|line| - 1] == '\r' then line[..|line| - 1] else line
  }

  /** str::lines, which also drops a carriage return in front of a newline. */
  function TextLines(s: string): seq<string>
    decreases |s|
  {
    if s == [] then []
    else
      var i := IndexOf(s, '\n');
      if i == |s| then [s] else [StripCr(s[..i])] + TextLines(s[i + 1..])
  }

  /** An unsigned byte; unlike a signed number it may not begin with a minus sign. */
  function ParseByte(s: string): Option<int> {
    if s != [] && s[0] == '-' then None else ParseInt(s, 0, 255)
  }

  function ParseRow(line: string): Option<PackageConfig> {
    var parts := Fields(line, false, []);
    if |parts| < 6 then None
    else
      var exclude, allow := ParseByte(parts[1]), ParseByte(parts[2]);
      var uid, toUid := ParseInt(parts[3], MIN32, MAX32), ParseInt(parts[4], MIN32, MAX32);
      if exclude.None? || allow.None? || uid.None? || toUid.None? || parts[0] == [] then None
      else Some(PackageConfig(parts[0], exclude.value == 1, allow.value == 1, uid.value, toUid.value, parts[5]))
  }

  function ParseRows(lines: seq<string>): seq<PackageConfig> {
    if lines == [] then []
    else (if ParseRow(lines[0]).Some? then [ParseRow(lines[0]).value] else []) + ParseRows(lines[1..])
  }

  /** parse_package_config: the first line is the header, malformed rows are skipped. */
  function Parsed(content: string): seq<PackageConfig> {
    var lines := TextLines(content);
    if lines == [] then [] else ParseRows(lines[1..])
  }

  method ParsePackageConfig(content: string) returns (result: seq<PackageConfig>)
    ensures result == Parsed(content)
  {
    hide ParseRow, TextLines;
    result := [];
    var lines := TextLines(content);
    for k := 0 to |lines|
      invariant result + ParseRows(lines[if k == 0 && lines != [] then 1 else k..]) == Parsed(content)
    {
      if k > 0 {
        ParseRowsStep(lines, k);
        var row := ParseRow(lines[k]);
        if row.Some? {
          assert result + ([row.value] + ParseRows(lines[k + 1..])) == (result + [row.value]) + ParseRows(lines[k + 1..]);
          result := result + [row.value];
        }
      }
    }
  }

  lemma ParseRowsStep(lines: seq<string>, k: nat)
    requires k < |lines|
    ensures ParseRows(lines[k..]) == (if ParseRow(lines[k]).Some? then [ParseRow(lines[k]).value] else []) + ParseRows(lines[k + 1..])
  {
    assert lines[k..][1..] == lines[k + 1..];
  }

  // --- The round trip, and exactly when it holds -----------------------------------------------------------

  /** A row that stays on its line and is not skipped. */
  predicate OneLine(c: PackageConfig) {
    c.pkg != [] && '\n' !in c.pkg && '\n' !in c.sctx
  }

  predicate InRange32(c: PackageConfig) {
    MIN32 <= c.uid <= MAX32 && MIN32 <= c.toUid <= MAX32
  }

  /** What the context column keeps: an unquoted one loses a final carriage return. */
  function Kept(c: PackageConfig): PackageConfig {
    if NeedsQuotes(c.sctx) then c else c.(sctx := StripCr(c.sctx))
  }

  /** A config that reading back reproduces. */
  predicate Storable(c: PackageConfig) {
    OneLine(c) && (c.sctx != [] && c.sctx[|c.sctx| - 1] == '\r' ==> NeedsQuotes(c.sctx))
  }

  lemma FlagRoundTrip(b: bool)
    ensures ParseByte(Flag(b)) == Some(if b then 1 else 0)
    ensures '\n' !in Flag(b)
  {
    assert Value("1") == 10 * Value([]) + 1;
    assert Value("0") == 10 * Value([]) + 0;
  }

  lemma RowOfFields(c: PackageConfig, line: string)
    requires InRange32(c) && c.pkg != [] && Fields(line, false, []) == RowFields(c)
    ensures ParseRow(line) == Some(c)
  {
    hide Flag, ParseByte, ParseInt, Fields;
    FlagRoundTrip(c.exclude);
    FlagRoundTrip(c.allow);
    NumberRoundTrip(c.uid, MIN32, MAX32);
    NumberRoundTrip(c.toUid, MIN32, MAX32);
  }

  lemma {:induction false} DoubledKeepsOut(f: string, c: char)
    requires c !in f && c != '"'
    ensures c !in Doubled(f)
  {
    if f != [] {
      DoubledKeepsOut(f[1..], c);
    }
  }

  lemma EscapeKeepsOut(f: string, c: char)
    requires c !in f && c != '"'
    ensures c !in Escape(f)
  {
    DoubledKeepsOut(f, c);
  }

  lemma {:induction false} EscapeAllAppend(a: seq<string>, f: string)
    ensures EscapeAll(a + [f]) == EscapeAll(a) + [Escape(f)]
  {
    hide Escape;
    if a == [] {
      assert a + [f] == [f];
    } else {
      assert (a + [f])[1..] == a[1..] + [f];
      EscapeAllAppend(a[1..], f);
    }
  }

  lemma {:induction false} JoinAppend(items: seq<string>, last: string, sep: char)
    requires items != []
    ensures Join(items + [last], sep) == Join(items, sep) + [sep] + last
  {
    if |items| > 1 {
      assert (items + [last])[1..] == items[1..] + [last];
      JoinAppend(items[1..], last, sep);
    } else {
      assert (items + [last])[1..] == [last];
    }
  }

  lemma {:induction false} EscapedListKeepsOut(fields: seq<string>, c: char)
    requires c != '"' && c != ',' && forall i :: 0 <= i < |fields| ==> c !in fields[i]
    ensures c !in Join(EscapeAll(fields), ',')
  {
    hide Escape;
    if fields != [] {
      EscapeKeepsOut(fields[0], c);
      EscapedListKeepsOut(fields[1..], c);
    }
  }

  lemma RowIsOneLine(c: PackageConfig)
    requires OneLine(c)
    ensures '\n' !in Row(c)
  {
    hide Escape, Flag, Show, EscapeAll, Join;
    FlagRoundTrip(c.exclude);
    FlagRoundTrip(c.allow);
    ShownIsClean(c.uid);
    ShownIsClean(c.toUid);
    EscapedListKeepsOut(RowFields(c), '\n');
  }

  /** Everything in a row in front of the context column. */
  function Front(c: PackageConfig): string {
    Join(EscapeAll([c.pkg, Flag(c.exclude), Flag(c.allow), Show(c.uid), Show(c.toUid)]), ',') + [',']
  }

  lemma RowText(c: PackageConfig)
    ensures Row(c) == Front(c) + Escape(c.sctx)
  {
    hide Escape, Flag, Show, Join;
    var front := [c.pkg, Flag(c.exclude), Flag(c.allow), Show(c.uid), Show(c.toUid)];
    assert RowFields(c) == front + [c.sctx];
    EscapeAllAppend(front, c.sctx);
    JoinAppend(EscapeAll(front), Escape(c.sctx), ',');
  }

  /** Reading a written row as a line drops what Kept drops. */
  lemma StrippedRow(c: PackageConfig)
    ensures StripCr(Row(c)) == Row(Kept(c))
  {
    hide Row, Front, Doubled;
    RowText(c);
    RowText(Kept(c));
    SameFront(c, Kept(c));
    if !NeedsQuotes(c.sctx) && StripCr(c.sctx) != c.sctx {
      assert !NeedsQuotes(StripCr(c.sctx));
      assert (Front(c) + c.sctx)[..|Front(c) + c.sctx| - 1] == Front(c) + StripCr(c.sctx);
    } else if c.sctx == [] {
      EndsWithComma(c);
    }
  }

  lemma SameFront(c: PackageConfig, d: PackageConfig)
    requires d == c.(sctx := d.sctx)
    ensures Front(c) == Front(d)
  {
  }

  lemma EndsWithComma(c: PackageConfig)
    ensures Front(c) != [] && Front(c)[|Front(c)| - 1] == ','
  {
    hide EscapeAll, Join;
  }

  lemma KeptRowParses(c: PackageConfig)
    requires c.pkg != [] && InRange32(c)
    ensures ParseRow(Row(Kept(c))) == Some(Kept(c))
  {
    hide ParseRow, Fields, RowFields;
    RowHasFields(Kept(c));
    LineRoundTrip(RowFields(Kept(c)));
    RowOfFields(Kept(c), Row(Kept(c)));
  }

  lemma RowHasFields(c: PackageConfig)
    ensures RowFields(c) != []
  {
  }

  function KeptAll(configs: seq<PackageConfig>): seq<PackageConfig> {
    if configs == [] then [] else [Kept(configs[0])] + KeptAll(configs[1..])
  }

  lemma TextLinesOfLine(line: string, rest: string)
    requires '\n' !in line
    ensures TextLines(line + ['\n'] + rest) == [StripCr(line)] + TextLines(rest)
  {
    var s := line + ['\n'] + rest;
    IndexOfIs(s, '\n', |line|);
    assert s[..|line|] == line && s[|line| + 1..] == rest;
  }

  /** Rows on one line each are read back one by one. */
  lemma {:induction false} RowsRoundTrip(configs: seq<PackageConfig>)
    requires forall i :: 0 <= i < |configs| ==> OneLine(configs[i]) && InRange32(configs[i])
    ensures ParseRows(TextLines(Rows(configs))) == KeptAll(configs)
  {
    hide Row, ParseRow, TextLines, Kept, StripCr;
    if configs == [] {
      assert TextLines([]) == [] by { NoLines(); }
    } else {
      var c, rest := configs[0], Rows(configs[1..]);
      RowIsOneLine(c);
      TextLinesOfLine(Row(c), rest);
      StrippedRow(c);
      KeptRowParses(c);
      RowsRoundTrip(configs[1..]);
      assert ([StripCr(Row(c))] + TextLines(rest))[1..] == TextLines(rest);
    }
  }

  lemma NoLines()
    ensures TextLines([]) == []
  {
  }

  lemma HeaderIsOneLine()
    ensures '\n' !in HEADER && StripCr(HEADER) == HEADER
  {
    assert |HEADER| == 33 && HEADER[32] == 'x';
  }

  lemma ParsedWritten(configs: seq<PackageConfig>)
    ensures Parsed(Written(configs)) == ParseRows(TextLines(Rows(configs)))
  {
    hide Rows, TextLines, StripCr;
    HeaderIsOneLine();
    TextLinesOfLine(HEADER, Rows(configs));
    assert ([HEADER] + TextLines(Rows(configs)))[1..] == TextLines(Rows(configs));
  }

  lemma {:induction false} TextLinesKeepOutNewlines(s: string)
    ensures forall l :: l in TextLines(s) ==> '\n' !in l
    decreases |s|
  {
    var i := IndexOf(s, '\n');
    if i < |s| {
      TextLinesKeepOutNewlines(s[i + 1..]);
    }
  }

  /** Whatever the file holds, a parsed entry has a name and no line breaks. */
  lemma {:induction false} ParsedRowsAreOneLine(lines: seq<string>)
    requires forall i :: 0 <= i < |lines| ==> '\n' !in lines[i]
    ensures forall c :: c in ParseRows(lines) ==> OneLine(c)
  {
    if lines != [] {
      FieldsKeepOut(lines[0], false, [], '\n');
      ParsedRowsAreOneLine(lines[1..]);
    }
  }

  lemma {:induction false} KeptAllIsIdentity(configs: seq<PackageConfig>)
    ensures |KeptAll(configs)| == |configs|
    ensures KeptAll(configs) == configs <==> forall i :: 0 <= i < |configs| ==> Kept(configs[i]) == configs[i]
  {
    hide Kept;
    if configs != [] {
      KeptAllIsIdentity(configs[1..]);
      var rest := configs[1..];
      assert configs == [configs[0]] + rest && KeptAll(configs)[1..] == KeptAll(rest) && KeptAll(configs)[0] == Kept(configs[0]);
      assert forall i :: 0 <= i < |rest| ==> rest[i] == configs[i + 1];
      assert KeptAll(configs) == configs <==> Kept(configs[0]) == configs[0] && KeptAll(rest) == rest;
      assert (forall i :: 0 <= i < |configs| ==> Kept(configs[i]) == configs[i]) <==>
             Kept(configs[0]) == configs[0] && forall i :: 0 <= i < |rest| ==> Kept(rest[i]) == rest[i];
    }
  }

  /**
   Reading back what was written gives the same list exactly when every package has
   a name, no text contains a line break, and no unquoted context ends with a
   carriage return.
   */
  lemma FileRoundTripExactlyWhen(configs: seq<PackageConfig>)
    requires forall i :: 0 <= i < |configs| ==> InRange32(configs[i])
    ensures Parsed(Written(configs)) == configs <==> forall i :: 0 <= i < |configs| ==> Storable(configs[i])
  {
    hide Rows, TextLines, ParseRows, KeptAll, OneLine, InRange32, NeedsQuotes;
    ParsedWritten(configs);
    if forall i :: 0 <= i < |configs| ==> OneLine(configs[i]) {
      RowsRoundTrip(configs);
      KeptAllIsIdentity(configs);
      forall i | 0 <= i < |configs| ensures Kept(configs[i]) == configs[i] <==> Storable(configs[i]) {
      }
    } else {
      TextLinesKeepOutNewlines(Rows(configs));
      ParsedRowsAreOneLine(TextLines(Rows(configs)));
      var i :| 0 <= i < |configs| && !OneLine(configs[i]);
      assert configs[i] in configs;
    }
  }

  // --- Policy ------------------------------------------------------------------------------------------------

  /** uid_in_range. */
  predicate UidInRange(c: PackageConfig, uid: int) {
    uid == c.uid || (c.toUid > c.uid && c.uid <= uid <= c.toUid)
  }

  /** uid_granted_root and uid_should_umount over the entries read. */
  predicate UidGrantedRoot(configs: seq<PackageConfig>, uid: int) {
    exists i :: 0 <= i < |configs| && configs[i].allow && UidInRange(configs[i], uid)
  }

  predicate UidShouldUmount(configs: seq<PackageConfig>, uid: int) {
    exists i :: 0 <= i < |configs| && configs[i].exclude && UidInRange(configs[i], uid)
  }

  function IndexOfEntry(configs: seq<PackageConfig>, pkg: string, uid: int): (i: nat)
    ensures i <= |configs|
    ensures i < |configs| ==> configs[i].pkg == pkg && configs[i].uid == uid
    ensures forall k :: 0 <= k < i ==> !(configs[k].pkg == pkg && configs[k].uid == uid)
  {
    if configs == [] || (configs[0].pkg == pkg && configs[0].uid == uid) then 0 else 1 + IndexOfEntry(configs[1..], pkg, uid)
  }

  /** The entry an update leaves for the package: the old one, or a fresh one, with the flags that are given. */
  function NewEntry(configs: seq<PackageConfig>, pkg: string, uid: int, allow: Option<bool>, exclude: Option<bool>): PackageConfig {
    var i := IndexOfEntry(configs, pkg, uid);
    var before := if i < |configs| then configs[i] else PackageConfig(pkg, false, false, uid, uid, []);
    before.(allow := if allow.Some? then allow.value else before.allow,
            exclude := if exclude.Some? then exclude.value else before.exclude)
  }

  /** The list with that entry in place of the old one, or at its end. */
  function Updated(configs: seq<PackageConfig>, pkg: string, uid: int, allow: Option<bool>, exclude: Option<bool>): seq<PackageConfig> {
    var i := IndexOfEntry(configs, pkg, uid);
    configs[..i] + [NewEntry(configs, pkg, uid, allow, exclude)] + if i < |configs| then configs[i + 1..] else []
  }

  /** set_package_flags: the list it writes back. */
  method SetPackageFlags(configs: seq<PackageConfig>, pkg: string, uid: int, allow: Option<bool>, exclude: Option<bool>)
    returns (after: seq<PackageConfig>)
    ensures after == Updated(configs, pkg, uid, allow, exclude)
  {
    after := configs;
    var i := 0;
    while i < |configs| && !(configs[i].pkg == pkg && configs[i].uid == uid)
      invariant i <= |configs| && forall k :: 0 <= k < i ==> !(configs[k].pkg == pkg && configs[k].uid == uid)
    {
      i := i + 1;
    }
    assert i == IndexOfEntry(configs, pkg, uid);
    if i < |configs| {
      var entry := configs[i];
      if allow.Some? {
        entry := entry.(allow := allow.value);
      }
      if exclude.Some? {
        entry := entry.(exclude := exclude.value);
      }
      after := configs[..i] + [entry] + configs[i + 1..];
    } else {
      after := configs + [PackageConfig(pkg, if exclude.Some? then exclude.value else false,
                                        if allow.Some? then allow.value else false, uid, uid, [])];
    }
  }

  /** The uids an entry other than number `i` answers for. */
  predicate OtherAllows(configs: seq<PackageConfig>, i: nat, uid: int) {
    exists k :: 0 <= k < |configs| && k != i && configs[k].allow && UidInRange(configs[k], uid)
  }

  predicate OtherExcludes(configs: seq<PackageConfig>, i: nat, uid: int) {
    exists k :: 0 <= k < |configs| && k != i && configs[k].exclude && UidInRange(configs[k], uid)
  }

  lemma PolicyOfUpdated(configs: seq<PackageConfig>, pkg: string, uid: int, allow: Option<bool>, exclude: Option<bool>, u: int)
    ensures var after, entry := Updated(configs, pkg, uid, allow, exclude), NewEntry(configs, pkg, uid, allow, exclude);
            var i := IndexOfEntry(configs, pkg, uid);
            (UidGrantedRoot(after, u) <==> (entry.allow && UidInRange(entry, u)) || OtherAllows(configs, i, u)) &&
            (UidShouldUmount(after, u) <==> (entry.exclude && UidInRange(entry, u)) || OtherExcludes(configs, i, u))
  {
    hide UidInRange, NewEntry;
    var i := IndexOfEntry(configs, pkg, uid);
    var entry, after := NewEntry(configs, pkg, uid, allow, exclude), Updated(configs, pkg, uid, allow, exclude);
    assert after[i] == entry;
    forall k: nat | k < |configs| && k != i
      ensures after[k] == configs[k]
    {
    }
    assert |after| == if i < |configs| then |configs| else i + 1;
  }

  // --- From file to file ---------------------------------------------------------------------------------------

  lemma {:induction false} KeptAllAt(configs: seq<PackageConfig>)
    ensures |KeptAll(configs)| == |configs|
    ensures forall i :: 0 <= i < |configs| ==> KeptAll(configs)[i] == Kept(configs[i])
  {
    hide Kept;
    if configs != [] {
      KeptAllAt(configs[1..]);
    }
  }

  /** What reading back drops has no influence on the policy. */
  lemma SamePolicy(configs: seq<PackageConfig>, u: int)
    ensures UidGrantedRoot(KeptAll(configs), u) <==> UidGrantedRoot(configs, u)
    ensures UidShouldUmount(KeptAll(configs), u) <==> UidShouldUmount(configs, u)
  {
    KeptAllAt(configs);
  }

  lemma {:induction false} ParsedRowsAreInRange(lines: seq<string>)
    ensures forall c :: c in ParseRows(lines) ==> InRange32(c)
  {
    if lines != [] {
      ParsedRowsAreInRange(lines[1..]);
    }
  }

  lemma ParsedEntries(text: string)
    ensures forall c :: c in Parsed(text) ==> OneLine(c) && InRange32(c)
  {
    hide ParseRows, OneLine, InRange32;
    TextLinesKeepOutNewlines(text);
    if TextLines(text) != [] {
      ParsedRowsAreOneLine(TextLines(text)[1..]);
      ParsedRowsAreInRange(TextLines(text)[1..]);
    }
  }

  /**
   An update of the file survives being read back, up to a carriage return at the end
   of an unquoted context, exactly when the package has a name without a line break.
   The file it starts from may hold anything.
   */
  lemma UpdateIsReadBackExactlyWhen(text: string, pkg: string, uid: int, allow: Option<bool>, exclude: Option<bool>)
    requires MIN32 <= uid <= MAX32
    ensures var after := Updated(Parsed(text), pkg, uid, allow, exclude);
            Parsed(Written(after)) == KeptAll(after) <==> pkg != [] && '\n' !in pkg
  {
    hide Parsed, Written, KeptAll, Rows, TextLines, ParseRows, Kept;
    var configs := Parsed(text);
    var after := Updated(configs, pkg, uid, allow, exclude);
    ParsedEntries(text);
    assert forall i :: 0 <= i < |after| ==> after[i] in configs || after[i] == NewEntry(configs, pkg, uid, allow, exclude);
    ParsedWritten(after);
    var i := IndexOfEntry(configs, pkg, uid);
    assert i < |configs| ==> configs[i] in configs;
    if pkg != [] && '\n' !in pkg {
      RowsRoundTrip(after);
    } else {
      TextLinesKeepOutNewlines(Rows(after));
      ParsedRowsAreOneLine(TextLines(Rows(after)));
      KeptAllAt(after);
      KeptHasName(after[i]);
      assert after[i].pkg == pkg && KeptAll(after)[i] in KeptAll(after);
    }
  }

  lemma KeptHasName(c: PackageConfig)
    ensures Kept(c).pkg == c.pkg
  {
  }

  /**
   After set_package_flags has rewritten the file, the uids granted root, and those
   whose mounts are taken away, as the next reader sees them, are the ones the new
   entry covers and the ones another entry of the old file covers.
   */
  lemma PolicyAfterUpdate(text: string, pkg: string, uid: int, allow: Option<bool>, exclude: Option<bool>, u: int)
    requires MIN32 <= uid <= MAX32 && pkg != [] && '\n' !in pkg
    ensures var configs := Parsed(text);
            var i, entry := IndexOfEntry(configs, pkg, uid), NewEntry(configs, pkg, uid, allow, exclude);
            var reread := Parsed(Written(Updated(configs, pkg, uid, allow, exclude)));
            (UidGrantedRoot(reread, u) <==> (entry.allow && UidInRange(entry, u)) || OtherAllows(configs, i, u)) &&
            (UidShouldUmount(reread, u) <==> (entry.exclude && UidInRange(entry, u)) || OtherExcludes(configs, i, u))
    ensures allow == Some(true) ==> UidGrantedRoot(Parsed(Written(Updated(Parsed(text), pkg, uid, allow, exclude))), uid)
  {
    hide Parsed, Written, Updated, KeptAll, UidGrantedRoot, UidShouldUmount, OtherAllows, OtherExcludes;
    UpdateIsReadBackExactlyWhen(text, pkg, uid, allow, exclude);
    SamePolicy(Updated(Parsed(text), pkg, uid, allow, exclude), u);
    PolicyOfUpdated(Parsed(text), pkg, uid, allow, exclude, u);
    SamePolicy(Updated(Parsed(text), pkg, uid, allow, exclude), uid);
    PolicyOfUpdated(Parsed(text), pkg, uid, allow, exclude, uid);
  }
}
