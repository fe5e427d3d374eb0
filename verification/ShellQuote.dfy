/**
 The copyable command line of scripts/publish-npm-baseline.ts (lines 994-1003), against the
 quoting rules a POSIX shell splits it by: XCU sections 2.2.2 and 2.2.3 for quotes, and
 section 2.6.5 for the blanks between words.
 */
module ShellQuote {
  import opened Prelude

  const QUOTE := '\''

  /** `[\w./:@=+-]`, the characters that need no quoting. */
  predicate Safe(c: char) {
    || 'a' <= c <= 'z' || 'A' <= c <= 'Z' || '0' <= c <= '9'
    || c == '_' || c == '.' || c == '/' || c == ':' || c == '@' || c == '=' || c == '+' || c == '-'
  }

  const UPPER := "ABCDEFGHIJKLMNOPQRSTUVWXYZ"
  const LOWER := "abcdefghijklmnopqrstuvwxyz"
  const DIGITS := "0123456789"
  const MARKS := "_./:@=+-"

  /** The same, spelled out. */
  predicate Plain(c: char) {
    c in UPPER || c in LOWER || c in DIGITS || c in MARKS
  }

  /** What a shell takes for more than itself outside quotes (section 2.2). `=` does so only in a first word. */
  const SPECIAL := "|&;<>()$`\\\"' \t\n*?[#~%"

  predicate AllSafe(value: string) {
    value != "" && forall c :: c in value ==> Safe(c)
  }

  /** One character as `replaceAll` leaves it inside the quotes. */
  function EscapeOne(c: char): string {
    if c == QUOTE then "'\"'\"'" else [c]
  }

  /** `value.replaceAll("'", "'\"'\"'")`. */
  function Escape(value: string): string {
    if value == "" then "" else EscapeOne(value[0]) + Escape(value[1..])
  }

  function QuoteShellArgument(value: string): string {
    if AllSafe(value) then value else "'" + Escape(value) + "'"
  }

  function Quoted(words: seq<string>): seq<string> {
    if words == [] then [] else [QuoteShellArgument(words[0])] + Quoted(words[1..])
  }

  /** `.join(' ')`. */
  function Join(words: seq<string>): string {
    if words == [] then ""
    else if |words| == 1 then words[0]
    else words[0] + " " + Join(words[1..])
  }

  function FormatCopyableCommand(command: string, args: seq<string>): string {
    Join(Quoted([command] + args))
  }

  /** Where the shell's scanner is: between words, in a word, or inside single or double quotes. */
  datatype Mode = Between | Word | Single | Double

  /**
   The shell's scan. Inside single quotes every character stands for itself; inside double quotes
   the ones that keep a special meaning are refused here; outside quotes any other special character
   than a blank is. `None` is any text whose reading these rules do not settle.
   */
  function Scan(s: string, mode: Mode, word: string, done: seq<string>): Option<seq<string>>
    decreases |s|
  {
    if s == "" then
      match mode
      case Between => Some(done)
      case Word => Some(done + [word])
      case _ => None
    else
      var c, rest := s[0], s[1..];
      match mode
      case Single => if c == QUOTE then Scan(rest, Word, word, done) else Scan(rest, Single, word + [c], done)
      case Double =>
        if c == '"' then Scan(rest, Word, word, done)
        else if c == '$' || c == '`' || c == '\\' then None
        else Scan(rest, Double, word + [c], done)
      case _ =>
        var started := if mode == Between then "" else word;
        if c == ' ' || c == '\t' then Scan(rest, Between, "", if mode == Word then done + [word] else done)
        else if c == QUOTE then Scan(rest, Single, started, done)
        else if c == '"' then Scan(rest, Double, started, done)
        else if c !in SPECIAL then Scan(rest, Word, started + [c], done)
        else None
  }

  /** The words a shell reads from a command line. */
  function ShellWords(line: string): Option<seq<string>> {
    Scan(line, Between, "", [])
  }

  lemma {:induction false} ScanSafe(value: string, tail: string, word: string, done: seq<string>)
    requires forall c :: c in value ==> Safe(c)
    ensures Scan(value + tail, Word, word, done) == Scan(tail, Word, word + value, done)
  {
    if value == "" {
      assert value + tail == tail && word + value == word;
    } else {
      assert value[0] in value;
      assert (value + tail)[1..] == value[1..] + tail;
      ScanSafe(value[1..], tail, word + [value[0]], done);
      assert word + [value[0]] + value[1..] == word + value;
    }
  }

  lemma EscapeFirst(value: string, end: string)
    requires value != ""
    ensures Escape(value) + end == EscapeOne(value[0]) + (Escape(value[1..]) + end)
  {}

  lemma ScanEscapedOne(c: char, rest: string, word: string, done: seq<string>)
    ensures Scan(EscapeOne(c) + rest, Single, word, done) == Scan(rest, Single, word + [c], done)
  {
    if c == QUOTE { ScanQuote(rest, word, done); } else { ScanOne(c, rest, Single, word, done); }
  }

  /** Inside single quotes, escaped text reads back as itself, quotes and newlines included. */
  lemma {:induction false} ScanEscaped(value: string, end: string, tail: string, word: string, done: seq<string>)
    requires end == [QUOTE] + tail
    ensures Scan(Escape(value) + end, Single, word, done) == Scan(tail, Word, word + value, done)
  {
    if value == "" {
      assert Escape(value) + end == end && word + value == word;
      ScanOne(QUOTE, tail, Single, word, done);
    } else {
      var c, v := value[0], value[1..];
      EscapeFirst(value, end);
      ScanEscaped(v, end, tail, word + [c], done);
      EscapedStep(c, v, Escape(v) + end, tail, word, done);
      assert [c] + v == value;
    }
  }

  lemma EscapedStep(c: char, v: string, escaped: string, tail: string, word: string, done: seq<string>)
    requires Scan(escaped, Single, word + [c], done) == Scan(tail, Word, word + [c] + v, done)
    ensures Scan(EscapeOne(c) + escaped, Single, word, done) == Scan(tail, Word, word + ([c] + v), done)
  {
    ScanEscapedOne(c, escaped, word, done);
    assert word + [c] + v == word + ([c] + v);
  }

  /** What the shell does with one character in each state. */
  lemma ScanOne(c: char, rest: string, mode: Mode, word: string, done: seq<string>)
    ensures mode == Single ==>
              Scan([c] + rest, mode, word, done) == if c == QUOTE then Scan(rest, Word, word, done) else Scan(rest, Single, word + [c], done)
    ensures mode == Double && c == '"' ==> Scan([c] + rest, mode, word, done) == Scan(rest, Word, word, done)
    ensures mode == Double && c == QUOTE ==> Scan([c] + rest, mode, word, done) == Scan(rest, Double, word + [c], done)
    ensures mode == Word && c == '"' ==> Scan([c] + rest, mode, word, done) == Scan(rest, Double, word, done)
    ensures mode == Word && c == QUOTE ==> Scan([c] + rest, mode, word, done) == Scan(rest, Single, word, done)
    ensures mode == Between && c == QUOTE ==> Scan([c] + rest, mode, word, done) == Scan(rest, Single, "", done)
    ensures mode == Between && Safe(c) ==> Scan([c] + rest, mode, word, done) == Scan(rest, Word, [c], done)
  {
    assert ([c] + rest)[1..] == rest;
    assert "" + [c] == [c];
  }

  /** Close the quotes, a quote in double quotes, and open again: one literal quote. */
  lemma ScanQuote(rest: string, word: string, done: seq<string>)
    ensures Scan("'\"'\"'" + rest, Single, word, done) == Scan(rest, Single, word + [QUOTE], done)
  {
    var r4 := [QUOTE] + rest;
    var r3 := ['"'] + r4;
    var r2 := [QUOTE] + r3;
    var r1 := ['"'] + r2;
    assert "'\"'\"'" + rest == [QUOTE] + r1;
    ScanOne(QUOTE, r1, Single, word, done);
    ScanOne('"', r2, Word, word, done);
    ScanOne(QUOTE, r3, Double, word, done);
    ScanOne('"', r4, Double, word + [QUOTE], done);
    ScanOne(QUOTE, rest, Word, word + [QUOTE], done);
  }

  /** A quoted argument followed by anything reads as one word with the argument's text. */
  lemma ScanArgument(value: string, tail: string, done: seq<string>)
    ensures Scan(QuoteShellArgument(value) + tail, Between, "", done) == Scan(tail, Word, value, done)
  {
    if AllSafe(value) {
      var c, rest := value[0], value[1..] + tail;
      assert c in value;
      assert value + tail == [c] + rest;
      ScanOne(c, rest, Between, "", done);
      ScanSafe(value[1..], tail, [c], done);
      assert [c] + value[1..] == value;
    } else {
      var end := [QUOTE] + tail;
      var rest := Escape(value) + end;
      assert QuoteShellArgument(value) + tail == [QUOTE] + rest;
      ScanOne(QUOTE, rest, Between, "", done);
      ScanEscaped(value, end, tail, "", done);
      assert "" + value == value;
    }
  }

  lemma {:induction false} ScanWords(words: seq<string>, done: seq<string>)
    requires words != []
    ensures Scan(Join(Quoted(words)), Between, "", done) == Some(done + words)
    decreases |words|
  {
    var first := words[0];
    if |words| == 1 {
      assert QuoteShellArgument(first) + "" == QuoteShellArgument(first);
      ScanArgument(first, "", done);
      assert words == [first];
    } else {
      var tail := " " + Join(Quoted(words[1..]));
      assert Join(Quoted(words)) == QuoteShellArgument(first) + tail;
      ScanArgument(first, tail, done);
      assert tail[1..] == Join(Quoted(words[1..]));
      ScanWords(words[1..], done + [first]);
      assert done + [first] + words[1..] == done + words;
    }
  }

  lemma UpperIs(c: char)
    ensures c in UPPER <==> 'A' <= c <= 'Z'
  {
    if 'A' <= c <= 'Z' { assert UPPER[(c - 'A') as int] == c; }
  }

  lemma LowerIs(c: char)
    ensures c in LOWER <==> 'a' <= c <= 'z'
  {
    if 'a' <= c <= 'z' { assert LOWER[(c - 'a') as int] == c; }
  }

  lemma DigitIs(c: char)
    ensures c in DIGITS <==> '0' <= c <= '9'
  {
    if '0' <= c <= '9' { assert DIGITS[(c - '0') as int] == c; }
  }

  lemma MarkIs(c: char)
    ensures c in MARKS <==> c == '_' || c == '.' || c == '/' || c == ':' || c == '@' || c == '=' || c == '+' || c == '-'
  {
    assert MARKS[0] == '_' && MARKS[1] == '.' && MARKS[2] == '/' && MARKS[3] == ':';
    assert MARKS[4] == '@' && MARKS[5] == '=' && MARKS[6] == '+' && MARKS[7] == '-';
  }

  /** An argument is printed as it is exactly when it has characters and all of them are plain. */
  lemma PrintedAsItIsExactly(value: string)
    ensures QuoteShellArgument(value) == value <==> value != "" && forall i :: 0 <= i < |value| ==> Plain(value[i])
  {
    forall i | 0 <= i < |value| ensures Safe(value[i]) <==> Plain(value[i]) {
      UpperIs(value[i]);
      LowerIs(value[i]);
      DigitIs(value[i]);
      MarkIs(value[i]);
    }
    EscapeGrows(value);
  }

  lemma {:induction false} EscapeGrows(value: string)
    ensures |Escape(value)| >= |value|
  {
    if value != "" { EscapeGrows(value[1..]); }
  }

  /** Pasted into a shell, the printed line splits into exactly the command and its arguments, whatever they contain. */
  lemma CopyableCommandSplitsBack(command: string, args: seq<string>)
    ensures ShellWords(FormatCopyableCommand(command, args)) == Some([command] + args)
  {
    ScanWords([command] + args, []);
    assert [] + ([command] + args) == [command] + args;
  }
}
