/**
 Quoting for the WebUI's shell commands (shellQuote in zygiskd/webui/src/cli_parse.ts),
 against the reading a POSIX shell gives it (section 2.2 of the Shell Command
 Language: backslash in 2.2.1, single quotes in 2.2.2).
 */
module ShellQuote {
  import opened Options

  /** Each single quote becomes: close, an escaped quote, reopen. */
  function Replaced(value: string): string {
    if value == [] then []
    else (if value[0] == '\'' then ['\'', '\\', '\'', '\''] else [value[0]]) + Replaced(value[1..])
  }

  function Quoted(value: string): string {
    ['\''] + Replaced(value) + ['\'']
  }

  // --- The shell ----------------------------------------------------------------------------------------

  predicate Separator(c: char) {
    c == ' ' || c == '\t'
  }

  /** Characters with a meaning of their own outside quotes, other than the two quoting characters modelled. */
  predicate Special(c: char) {
    c in {'|', '&', ';', '<', '>', '(', ')', '$', '`', '"', '*', '?', '[', '#', '~', '=', '%', '!', '{', '}', '\n'}
  }

  function Extend(word: Option<string>, c: char): Option<string> {
    Some((if word.Some? then word.value else []) + [c])
  }

  function Finish(word: Option<string>): seq<string> {
    if word.Some? then [word.value] else []
  }

  /**
   The words of a simple command: `word` is the one being read, None between words.
   None as a result: a construct that is not modelled, or an unterminated quote.
   */
  function Words(s: string, inQuotes: bool, word: Option<string>): Option<seq<string>>
    decreases |s|
  {
    if s == [] then
      if inQuotes then None else Some(Finish(word))
    else if inQuotes then
      if s[0] == '\'' then Words(s[1..], false, word) else Words(s[1..], true, Extend(word, s[0]))
    else if s[0] == '\'' then Words(s[1..], true, Some(if word.Some? then word.value else []))
    else if s[0] == '\\' then
      if |s| == 1 then None
      else if s[1] == '\n' then Words(s[2..], false, word)
      else Words(s[2..], false, Extend(word, s[1]))
    else if Separator(s[0]) then Prepend(Finish(word), Words(s[1..], false, None))
    else if Special(s[0]) then None
    else Words(s[1..], false, Extend(word, s[0]))
  }

  function Prepend(words: seq<string>, rest: Option<seq<string>>): Option<seq<string>> {
    if rest.Some? then Some(words + rest.value) else None
  }

  /** Inside quotes a replaced text adds exactly the text to the word. */
  lemma {:induction false} ReplacedIsLiteral(value: string, rest: string, word: string)
    ensures Words(Replaced(value) + ['\''] + rest, true, Some(word)) == Words(rest, false, Some(word + value))
  {
    var s := Replaced(value) + ['\''] + rest;
    if value == [] {
      assert s == ['\''] + rest && s[1..] == rest && word + value == word;
    } else {
      var tail := Replaced(value[1..]) + ['\''] + rest;
      assert word + value == word + [value[0]] + value[1..];
      if value[0] == '\'' {
        assert s == ['\'', '\\', '\'', '\''] + tail;
        assert s[1..] == ['\\', '\'', '\''] + tail;
        assert s[1..][2..] == ['\''] + tail;
        assert s[1..][2..][1..] == tail;
        assert Words(s, true, Some(word)) == Words(s[1..], false, Some(word));
        assert Words(s[1..], false, Some(word)) == Words(s[1..][2..], false, Some(word + ['\'']));
        assert Words(s[1..][2..], false, Some(word + ['\''])) == Words(tail, true, Some(word + ['\'']));
      } else {
        assert s[0] == value[0] && s[1..] == tail;
      }
      ReplacedIsLiteral(value[1..], rest, word + [value[0]]);
    }
  }

  lemma QuotedExtends(value: string, rest: string)
    ensures Words(Quoted(value) + rest, false, None) == Words(rest, false, Some(value))
  {
    var s := Quoted(value) + rest;
    assert s == ['\''] + (Replaced(value) + ['\''] + rest);
    assert s[1..] == Replaced(value) + ['\''] + rest;
    ReplacedIsLiteral(value, rest, []);
    assert [] + value == value;
  }

  /** The shell reads a quoted value as one word: the value, whatever characters it has. */
  lemma QuotedIsOneWord(value: string)
    ensures Words(Quoted(value), false, None) == Some([value])
  {
    QuotedExtends(value, []);
    assert Quoted(value) + [] == Quoted(value);
  }

  /** Quoted arguments separated by spaces, as commands are assembled. */
  function CommandLine(args: seq<string>): string {
    if args == [] then [] else if |args| == 1 then Quoted(args[0]) else Quoted(args[0]) + [' '] + CommandLine(args[1..])
  }

  /** No value can change the number of arguments or leak into another one. */
  lemma {:induction false} ArgumentsAreKept(args: seq<string>)
    ensures Words(CommandLine(args), false, None) == Some(args)
  {
    hide Quoted;
    if |args| == 1 {
      QuotedIsOneWord(args[0]);
      assert args == [args[0]];
    } else if |args| > 1 {
      var rest := [' '] + CommandLine(args[1..]);
      assert CommandLine(args) == Quoted(args[0]) + rest;
      QuotedExtends(args[0], rest);
      assert rest[1..] == CommandLine(args[1..]);
      ArgumentsAreKept(args[1..]);
      assert [args[0]] + args[1..] == args;
    }
  }
}
