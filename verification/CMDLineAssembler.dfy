/**
 src/CMDLineAssembler.cc: the `Exec` key (section 7 of the Desktop Entry Specification) is split into
 an argument vector, and argument vectors are quoted for a POSIX shell.
 */
module CMDLineAssembler {
  import opened Utilities

  // ------------------------------------------------------------------------------------------
  // The Exec key
  // ------------------------------------------------------------------------------------------

  /** The characters that a backslash may precede inside double quotes. */
  predicate Escapable(c: char) {
    c == '"' || c == '`' || c == '$' || c == '\\'
  }

  /** A text read from some point on: the rest of the current word, then everything after that word. */
  datatype Reading<T> = Malformed | Reading(word: string, rest: seq<T>)

  function Prepend<T>(prefix: string, r: Reading<T>): Reading<T> {
    if r.Malformed? then Malformed else Reading(prefix + r.word, r.rest)
  }

  lemma PrependTwice<T>(a: string, b: string, r: Reading<T>)
    ensures Prepend(a + b, r) == Prepend(a, Prepend(b, r))
  {
    if r.Reading? {
      Assoc(a, b, r.word);
    }
  }

  lemma PrependNothing<T>(r: Reading<T>)
    ensures Prepend("", r) == r
  {
    if r.Reading? {
      assert "" + r.word == r.word;
    }
  }

  /** The current word ends here and another one starts. */
  function NewWord(r: Reading<string>): Reading<string> {
    if r.Malformed? then Malformed else Reading("", [r.word] + r.rest)
  }

  /**
   The grammar of a well-formed Exec value, read outside of double quotes. The words of `s` are separated
   by single spaces, so there is always a last word and it may be empty.
   */
  function ReadExec(s: string): Reading<string>
    decreases |s|
  {
    if s == "" then Reading("", [])
    else if s[0] == ' ' then NewWord(ReadExec(s[1..]))
    else if s[0] == '"' then ReadQuoted(s[1..])
    else if s[0] == '\\' then Malformed
    else Prepend([s[0]], ReadExec(s[1..]))
  }

  /** The same grammar, read inside of double quotes. */
  function ReadQuoted(s: string): Reading<string>
    decreases |s|
  {
    if s == "" then Malformed
    else if s[0] == '"' then ReadExec(s[1..])
    else if s[0] != '\\' then Prepend([s[0]], ReadQuoted(s[1..]))
    else if |s| > 1 && Escapable(s[1]) then Prepend([s[1]], ReadQuoted(s[2..]))
    else Malformed
  }

  /** A well-formed Exec value. */
  predicate WellFormedExec(s: string) {
    ReadExec(s).Reading?
  }

  /** All the words of a reading, except that an empty last word does not count. */
  function AllWords(r: Reading<string>): Option<seq<string>> {
    if r.Malformed? then None else Some(DropEmptyLast([r.word] + r.rest))
  }

  function DropEmptyLast(words: seq<string>): seq<string> {
    if words != [] && words[|words| - 1] == "" then words[..|words| - 1] else words
  }

  /** `validate_exec_key`: a look-ahead automaton with one flag. */
  method ValidateExecKey(execKey: string) returns (ok: bool)
    ensures ok <==> WellFormedExec(execKey)
  {
    var inQuotes := false;
    var i := 0;
    while i < |execKey|
      invariant 0 <= i <= |execKey|
      invariant (if inQuotes then ReadQuoted(execKey[i..]) else ReadExec(execKey[i..])).Reading?
                <==> WellFormedExec(execKey)
    {
      var ch := execKey[i];
      assert execKey[i..][1..] == execKey[i + 1..];
      if inQuotes {
        if ch == '\\' {
          if i == |execKey| - 1 {
            return false;
          }
          assert execKey[i..][2..] == execKey[i + 2..];
          if !Escapable(execKey[i + 1]) {
            return false;
          }
          i := i + 1;
        } else if ch == '"' {
          inQuotes := false;
        }
      } else {
        if ch == '"' {
          inQuotes := true;
        } else if ch == '\\' {
          return false;
        }
      }
      i := i + 1;
    }
    return !inQuotes;
  }

  /** The three states of the splitter. */
  datatype SplitState = Plain | InQuotes | Escaping(inQuotes: bool)

  /** What the splitter does to the rest of any text, well-formed or not; Malformed is `Exec_invalid_escape`. */
  function Split(s: string, state: SplitState, wine: bool): Reading<string>
  {
    if s == "" then Reading("", [])
    else match state
      case Escaping(q) =>
        var rest := Split(s[1..], if q then InQuotes else Plain, wine);
        if Escapable(s[0]) then Prepend([s[0]], rest)
        else if s[0] == ' ' then (if wine then Prepend([s[0]], rest) else Malformed)
        else rest
      case InQuotes =>
        if s[0] == '"' then Split(s[1..], Plain, wine)
        else if s[0] == '\\' then Split(s[1..], Escaping(true), wine)
        else Prepend([s[0]], Split(s[1..], InQuotes, wine))
      case Plain =>
        if s[0] == '"' then Split(s[1..], InQuotes, wine)
        else if s[0] == ' ' then NewWord(Split(s[1..], Plain, wine))
        else if s[0] == '\\' then (if wine then Split(s[1..], Escaping(false), wine) else Malformed)
        else Prepend([s[0]], Split(s[1..], Plain, wine))
  }

  /** The state after one character that is not an invalid escape. */
  function NextState(state: SplitState, c: char): SplitState {
    match state
    case Escaping(q) => if q then InQuotes else Plain
    case InQuotes => if c == '"' then Plain else if c == '\\' then Escaping(true) else InQuotes
    case Plain => if c == '"' then InQuotes else if c == '\\' then Escaping(false) else Plain
  }

  /** The state at the end of the text. */
  function FinalState(s: string, state: SplitState): SplitState {
    if s == "" then state else FinalState(s[1..], NextState(state, s[0]))
  }

  /** The words already finished, the word being built and what is still to be read, put together. */
  function Resume(done: seq<string>, curr: string, r: Reading<string>): Option<seq<string>> {
    if r.Malformed? then None else Some(done + [curr + r.word] + r.rest)
  }

  lemma ResumePrepend(done: seq<string>, curr: string, c: string, r: Reading<string>)
    ensures Resume(done, curr, Prepend(c, r)) == Resume(done, curr + c, r)
  {
    if r.Reading? {
      Assoc(curr, c, r.word);
    }
  }

  lemma ResumeNewWord(done: seq<string>, curr: string, r: Reading<string>)
    ensures Resume(done, curr, NewWord(r)) == Resume(done + [curr], "", r)
  {
    if r.Reading? {
      assert curr + "" == curr && "" + r.word == r.word;
      assert done + [curr] + ([r.word] + r.rest) == done + [curr] + [r.word] + r.rest;
    }
  }

  /** Nothing is left to read: the last word counts unless it is empty. */
  lemma FinishedWords(result: seq<string>, curr: string, whole: Reading<string>)
    requires Resume(result, curr, Reading("", [])) == Resume([], "", whole)
    ensures whole.Reading? && AllWords(whole) == Some(if curr == "" then result else result + [curr])
  {
    var words := result + [curr];
    Neutral(curr);
    Neutral(words);
    Neutral(whole.word);
    Neutral([whole.word]);
    SplitConcat(result, [curr]);
  }

  /** `convert_exec_to_command`: two flags, one character at a time; `final` is what the flags say at the end. */
  method ConvertExecToCommand(execKey: string, wine: bool) returns (r: Option<seq<string>>, ghost final: SplitState)
    ensures r == AllWords(Split(execKey, Plain, wine))
    ensures r.Some? ==> final == FinalState(execKey, Plain)
    ensures WellFormedExec(execKey) ==> r.Some? && final == Plain
  {
    var result: seq<string> := [];
    var curr := "";
    var inQuotes := false;
    var escaping := false;
    final := Plain;
    ghost var whole := Split(execKey, Plain, wine);
    assert execKey[0..] == execKey;
    if WellFormedExec(execKey) {
      SplitterAgreesWithGrammar(execKey, false, wine);
    }
    for i := 0 to |execKey|
      invariant Resume(result, curr, Split(execKey[i..],
                  if escaping then Escaping(inQuotes) else if inQuotes then InQuotes else Plain, wine))
                == Resume([], "", whole)
      invariant final == if escaping then Escaping(inQuotes) else if inQuotes then InQuotes else Plain
      invariant FinalState(execKey[i..], final) == FinalState(execKey, Plain)
    {
      var ch := execKey[i];
      ghost var rest := execKey[i..][1..];
      assert rest == execKey[i + 1..];
      if escaping {
        ResumePrepend(result, curr, [ch], Split(rest, if inQuotes then InQuotes else Plain, wine));
        if Escapable(ch) {
          curr := curr + [ch];
        } else if ch == ' ' {
          if wine {
            curr := curr + " ";
          } else {
            return None, final;
          }
        }
        escaping := false;
      } else if inQuotes {
        if ch == '"' {
          inQuotes := false;
        } else if ch == '\\' {
          escaping := true;
        } else {
          ResumePrepend(result, curr, [ch], Split(rest, InQuotes, wine));
          curr := curr + [ch];
        }
      } else {
        if ch == '"' {
          inQuotes := true;
        } else if ch == ' ' {
          ResumeNewWord(result, curr, Split(rest, Plain, wine));
          result := result + [curr];
          curr := "";
        } else if ch == '\\' {
          if wine {
            escaping := true;
          } else {
            return None, final;
          }
        } else {
          ResumePrepend(result, curr, [ch], Split(rest, Plain, wine));
          curr := curr + [ch];
        }
      }
      final := NextState(final, ch);
    }
    FinishedWords(result, curr, whole);
    if curr != "" {
      result := result + [curr];
    }
    return Some(result), final;
  }

  /**
   The splitter simulates the grammar: on a value that the validator accepts, strict and Wine mode both succeed,
   both give the words of the grammar, and the text ends neither inside quotes nor inside an escape.
   */
  lemma {:induction false} SplitterAgreesWithGrammar(s: string, quoted: bool, wine: bool)
    requires (if quoted then ReadQuoted(s) else ReadExec(s)).Reading?
    ensures Split(s, if quoted then InQuotes else Plain, wine) == if quoted then ReadQuoted(s) else ReadExec(s)
    ensures FinalState(s, if quoted then InQuotes else Plain) == Plain
    decreases |s|
  {
    if s == "" {
    } else if s[0] == '"' {
      SplitterAgreesWithGrammar(s[1..], !quoted, wine);
    } else if quoted && s[0] == '\\' {
      assert s[1..][1..] == s[2..];
      SplitterAgreesWithGrammar(s[2..], true, wine);
    } else {
      SplitterAgreesWithGrammar(s[1..], quoted, wine);
    }
  }

  // ---- backslashes --------------------------------------------------------------------------

  /** Inside double quotes a backslash is well-formed before exactly four characters. */
  lemma QuotedBackslash(c: char, rest: string)
    ensures ReadQuoted(['\\', c] + rest)
         == if c == '"' || c == '`' || c == '$' || c == '\\' then Prepend([c], ReadQuoted(rest)) else Malformed
  {
    assert (['\\', c] + rest)[2..] == rest;
  }

  /**
   What the splitter does at a backslash. Before the four characters it keeps them. Before a space it keeps the
   space in Wine mode and fails in strict mode. Before anything else both the backslash and the character are lost.
   Outside of quotes strict mode fails at once.
   */
  lemma SplitAtBackslash(c: char, rest: string, wine: bool, quoted: bool)
    ensures Split(['\\', c] + rest, if quoted then InQuotes else Plain, wine)
         == var more := Split(rest, if quoted then InQuotes else Plain, wine);
            if !wine && !quoted then Malformed
            else if c == '"' || c == '`' || c == '$' || c == '\\' then Prepend([c], more)
            else if c == ' ' then (if wine then Prepend(" ", more) else Malformed)
            else more
  {
    var s := ['\\', c] + rest;
    assert s[1..] == [c] + rest && s[1..][1..] == rest;
  }

  /** Wine mode never fails. */
  lemma {:induction false} WineModeNeverFails(s: string, state: SplitState)
    ensures Split(s, state, true).Reading?
  {
    if s != "" {
      WineModeNeverFails(s[1..], NextState(state, s[0]));
    }
  }

  /** A backslash outside of quotes, or an escaped space. */
  predicate RefusedAt(s: string, state: SplitState, k: nat) {
    k < |s| && (if FinalState(s[..k], state).Plain? then s[k] == '\\'
                else FinalState(s[..k], state).Escaping? && s[k] == ' ')
  }

  ghost predicate SomewhereRefused(s: string, state: SplitState) {
    exists k: nat :: RefusedAt(s, state, k)
  }

  /** Strict mode fails exactly at a backslash outside of quotes or at an escaped space. */
  lemma {:induction false} StrictModeFails(s: string, state: SplitState)
    ensures Split(s, state, false).Malformed? <==> SomewhereRefused(s, state)
  {
    if s != "" {
      var rest, next := s[1..], NextState(state, s[0]);
      StrictModeFails(rest, next);
      assert s[..0] == "" && FinalState("", state) == state;
      assert RefusedAt(s, state, 0) <==> if state.Plain? then s[0] == '\\' else state.Escaping? && s[0] == ' ';
      forall k: nat | k < |rest| ensures RefusedAt(rest, next, k) <==> RefusedAt(s, state, k + 1) {
        assert s[..k + 1][1..] == rest[..k];
      }
      if k: nat :| RefusedAt(s, state, k) {
        if k > 0 {
          assert RefusedAt(rest, next, k - 1);
        }
      }
      if k: nat :| RefusedAt(rest, next, k) {
        assert RefusedAt(s, state, k + 1);
      }
    }
  }

  // ------------------------------------------------------------------------------------------
  // Writing an Exec value
  // ------------------------------------------------------------------------------------------

  /** Backslash-escape the body of one double-quoted argument. */
  function EscapeBody(arg: string): string {
    if arg == "" then ""
    else EscapedInQuotes(arg[0]) + EscapeBody(arg[1..])
  }

  function EscapedInQuotes(c: char): string {
    if Escapable(c) then ['\\', c] else [c]
  }

  /** The Exec value that the specification prescribes for an argument vector: every argument quoted. */
  function EncodeExec(argv: seq<string>): string {
    if argv == [] then ""
    else EncodeArgument(argv[0]) + (if |argv| == 1 then "" else " " + EncodeExec(argv[1..]))
  }

  function EncodeArgument(arg: string): string {
    "\"" + EscapeBody(arg) + "\""
  }

  lemma EscapedCharReadsBack(c: char, rest: string)
    ensures ReadQuoted(EscapedInQuotes(c) + rest) == Prepend([c], ReadQuoted(rest))
  {
    SplitConcat(EscapedInQuotes(c), rest);
  }

  lemma {:induction false} QuotedBody(arg: string, rest: string)
    ensures ReadQuoted(EscapeBody(arg) + ("\"" + rest)) == Prepend(arg, ReadExec(rest))
  {
    var tail := "\"" + rest;
    if arg == "" {
      Neutral(tail);
      SplitConcat("\"", rest);
      PrependNothing(ReadExec(rest));
    } else {
      var body := EscapeBody(arg[1..]);
      QuotedBody(arg[1..], rest);
      EscapedCharReadsBack(arg[0], body + tail);
      Assoc(EscapedInQuotes(arg[0]), body, tail);
      PrependTwice([arg[0]], arg[1..], ReadExec(rest));
      assert arg == [arg[0]] + arg[1..];
    }
  }

  lemma EncodedArgument(arg: string, rest: string)
    ensures ReadExec(EncodeArgument(arg) + rest) == Prepend(arg, ReadExec(rest))
  {
    QuotedBody(arg, rest);
    var body := EscapeBody(arg);
    Assoc("\"" + body, "\"", rest);
    Assoc("\"", body, "\"" + rest);
    SplitConcat("\"", body + ("\"" + rest));
  }

  /** Every argument vector, whatever its characters, is the meaning of its own encoding. */
  lemma {:induction false} EncodedExecMeansArgv(argv: seq<string>)
    ensures ReadExec(EncodeExec(argv)) == if argv == [] then Reading("", []) else Reading(argv[0], argv[1..])
  {
    if |argv| == 1 {
      EncodedArgument(argv[0], "");
      assert argv[0] + "" == argv[0];
    } else if |argv| > 1 {
      var rest := EncodeExec(argv[1..]);
      EncodedExecMeansArgv(argv[1..]);
      EncodedArgument(argv[0], " " + rest);
      assert (" " + rest)[1..] == rest;
      assert argv[0] + "" == argv[0];
      assert [argv[1]] + argv[1..][1..] == argv[1..];
    }
  }

  /**
   Strict and Wine mode decode the encoding of `argv` to `argv`, except that an empty last argument is
   lost: the round trip holds exactly for the vectors that do not end in one.
   */
  lemma ExecRoundTrip(argv: seq<string>, wine: bool)
    ensures WellFormedExec(EncodeExec(argv))
    ensures AllWords(Split(EncodeExec(argv), Plain, wine)) == Some(DropEmptyLast(argv))
    ensures AllWords(Split(EncodeExec(argv), Plain, wine)) == Some(argv)
            <==> argv == [] || argv[|argv| - 1] != ""
  {
    EncodedExecMeansArgv(argv);
    SplitterAgreesWithGrammar(EncodeExec(argv), false, wine);
    if argv != [] {
      assert [argv[0]] + argv[1..] == argv;
    }
  }

  /** A piece of an argument, written with or without quotes. */
  datatype Segment = Unquoted(text: string) | InDoubleQuotes(text: string)

  /** What may stand outside of quotes. */
  predicate MayStandAlone(s: Segment) {
    s.Unquoted? ==> '"' !in s.text && '\\' !in s.text && ' ' !in s.text
  }

  function WrittenSegment(s: Segment): string {
    if s.Unquoted? then s.text else EncodeArgument(s.text)
  }

  function WrittenSegments(segments: seq<Segment>): string {
    if segments == [] then "" else WrittenSegment(segments[0]) + WrittenSegments(segments[1..])
  }

  function SegmentsText(segments: seq<Segment>): string {
    if segments == [] then "" else segments[0].text + SegmentsText(segments[1..])
  }

  lemma {:induction false} UnquotedReads(text: string, rest: string)
    requires MayStandAlone(Unquoted(text))
    ensures ReadExec(text + rest) == Prepend(text, ReadExec(rest))
  {
    if text == "" {
      Neutral(rest);
      PrependNothing(ReadExec(rest));
    } else {
      assert text[0] in text && forall c <- text[1..] :: c in text;
      UnquotedReads(text[1..], rest);
      assert (text + rest)[1..] == text[1..] + rest;
      PrependTwice([text[0]], text[1..], ReadExec(rest));
      assert [text[0]] + text[1..] == text;
    }
  }

  /** Pieces with and without quotes make up one argument, in any mixture, as long as no space separates them. */
  lemma {:induction false} SegmentsRead(segments: seq<Segment>, rest: string)
    requires forall s <- segments :: MayStandAlone(s)
    ensures ReadExec(WrittenSegments(segments) + rest) == Prepend(SegmentsText(segments), ReadExec(rest))
  {
    if segments == [] {
      Neutral(rest);
      PrependNothing(ReadExec(rest));
    } else {
      var s, more := segments[0], segments[1..];
      assert s in segments && forall x <- more :: x in segments;
      SegmentsRead(more, rest);
      Assoc(WrittenSegment(s), WrittenSegments(more), rest);
      if s.Unquoted? {
        UnquotedReads(s.text, WrittenSegments(more) + rest);
      } else {
        EncodedArgument(s.text, WrittenSegments(more) + rest);
      }
      PrependTwice(s.text, SegmentsText(more), ReadExec(rest));
    }
  }

  /** Arguments of pieces, separated by single spaces. */
  function WrittenArguments(args: seq<seq<Segment>>): string {
    if args == [] then ""
    else WrittenSegments(args[0]) + (if |args| == 1 then "" else " " + WrittenArguments(args[1..]))
  }

  function Texts(args: seq<seq<Segment>>): (r: seq<string>)
    ensures |r| == |args|
  {
    if args == [] then [] else [SegmentsText(args[0])] + Texts(args[1..])
  }

  /** A command written as people write it, mostly without quotes, is read as the texts of its arguments. */
  lemma {:induction false} WrittenArgumentsRead(args: seq<seq<Segment>>)
    requires args != [] && forall arg <- args :: forall s <- arg :: MayStandAlone(s)
    ensures ReadExec(WrittenArguments(args)) == Reading(Texts(args)[0], Texts(args)[1..])
  {
    assert args[0] in args;
    if |args| == 1 {
      SegmentsRead(args[0], "");
      Neutral(SegmentsText(args[0]));
      assert Texts(args[1..]) == [];
    } else {
      var rest := WrittenArguments(args[1..]);
      assert forall arg <- args[1..] :: arg in args;
      WrittenArgumentsRead(args[1..]);
      SegmentsRead(args[0], " " + rest);
      assert (" " + rest)[1..] == rest;
      Neutral(SegmentsText(args[0]));
      assert [Texts(args[1..])[0]] + Texts(args[1..])[1..] == Texts(args[1..]);
    }
  }

  /** The smallest vector that does not survive. */
  lemma EmptyLastArgumentIsLost(wine: bool)
    ensures AllWords(Split(EncodeExec(["a", ""]), Plain, wine)) == Some(["a"])
  {
    ExecRoundTrip(["a", ""], wine);
    assert DropEmptyLast(["a", ""]) == ["a"];
  }

  // ------------------------------------------------------------------------------------------
  // The shell
  // ------------------------------------------------------------------------------------------

  /** Tokens of a shell command line made of words and `&&`. */
  datatype Token = Word(text: string) | AndIf

  /** The characters that section 2.2 of the POSIX Shell Command Language requires to be quoted. */
  predicate Special(c: char) {
    c in "|&;<>()$`\\\"' \t\n*?[#~=%"
  }

  function EndWord(tokens: Option<seq<Token>>): Reading<Token> {
    if tokens.None? then Malformed else Reading("", tokens.value)
  }

  /**
   Token recognition and quote removal for the fragment of the shell that has single quotes
   (section 2.2.2), backslashes (section 2.2.1), spaces and `&&`; None on an unterminated quote or
   on any other unquoted special character.
   */
  function ShellTokens(s: string): Option<seq<Token>>
    decreases |s|, 2
  {
    if s == "" then Some([])
    else if s[0] == ' ' then ShellTokens(s[1..])
    else if s[0] == '&' then AndIfTokens(s)
    else var w := ShellWord(s);
         if w.Malformed? then None else Some([Word(w.word)] + w.rest)
  }

  function AndIfTokens(s: string): Option<seq<Token>>
    requires s != "" && s[0] == '&'
    decreases |s|, 0
  {
    if |s| < 2 || s[1] != '&' then None
    else var rest := ShellTokens(s[2..]);
         if rest.None? then None else Some([AndIf] + rest.value)
  }

  function ShellWord(s: string): Reading<Token>
    decreases |s|, 1
  {
    if s == "" then Reading("", [])
    else if s[0] == ' ' then EndWord(ShellTokens(s[1..]))
    else if s[0] == '&' then EndWord(AndIfTokens(s))
    else if s[0] == '\'' then SingleQuoted(s[1..])
    else if s[0] == '\\' then
      if |s| == 1 then Malformed
      else if s[1] == '\n' then ShellWord(s[2..])
      else Prepend([s[1]], ShellWord(s[2..]))
    else if Special(s[0]) then Malformed
    else Prepend([s[0]], ShellWord(s[1..]))
  }

  function SingleQuoted(s: string): Reading<Token>
    decreases |s|, 0
  {
    if s == "" then Malformed
    else if s[0] == '\'' then ShellWord(s[1..])
    else Prepend([s[0]], SingleQuoted(s[1..]))
  }

  /** What `sq_quote` writes after the opening quote; a trailing quote of the input is not re-opened. */
  function SqBody(input: string): string {
    if input == "" then "'"
    else if input == "'" then "'\\'"
    else if input[0] == '\'' then "'\\''" + SqBody(input[1..])
    else [input[0]] + SqBody(input[1..])
  }

  function SqQuoted(input: string): string {
    "'" + SqBody(input)
  }

  /** Position of the first single quote, or the length. */
  method FindQuote(input: string) returns (where: nat)
    ensures where <= |input|
    ensures '\'' !in input[..where]
    ensures where < |input| ==> input[where] == '\''
  {
    where := 0;
    while where < |input| && input[where] != '\''
      invariant where <= |input|
      invariant '\'' !in input[..where]
    {
      where := where + 1;
    }
  }

  lemma {:induction false} SqBodySkips(plain: string, rest: string)
    requires '\'' !in plain
    ensures SqBody(plain + rest) == plain + SqBody(rest)
  {
    if plain == "" {
      assert plain + rest == rest;
    } else {
      var all := plain + rest;
      assert all[1..] == plain[1..] + rest;
      SqBodySkips(plain[1..], rest);
      assert plain == [plain[0]] + plain[1..];
    }
  }

  /** The three cases of the loop of `sq_quote`, by the position of the first quote. */
  lemma SqBodyAtFirstQuote(input: string, where: nat)
    requires where <= |input| && '\'' !in input[..where]
    requires where < |input| ==> input[where] == '\''
    ensures SqBody(input) ==
            if where == |input| then input + "'"
            else if where == |input| - 1 then input[..where] + "'\\'"
            else input[..where] + ("'\\''" + SqBody(input[where + 1..]))
  {
    SqBodySkips(input[..where], input[where..]);
    assert input[..where] + input[where..] == input;
    if where < |input| {
      assert input[where..][1..] == input[where + 1..];
    } else {
      assert input[..where] == input;
    }
  }

  /** `sq_quote` */
  method SqQuote(input: string) returns (result: string)
    ensures result == SqQuoted(input)
  {
    result := "'";
    var rest := input;
    var where := FindQuote(rest);
    SqBodyAtFirstQuote(rest, where);
    if where == |rest| {
      Assoc(result, rest, "'");
      return result + rest + "'";
    }
    ghost var quoted := SqQuoted(input);
    while true
      invariant 0 <= where <= |rest| && rest != ""
      invariant '\'' !in rest[..where]
      invariant where < |rest| ==> rest[where] == '\''
      invariant result + SqBody(rest) == quoted
      decreases |rest|
    {
      SqBodyAtFirstQuote(rest, where);
      if where == |rest| - 1 {
        Assoc(result, rest[..where], "'\\'");
        return result + rest[..|rest| - 1] + "'\\'";
      }
      if where == |rest| {
        Assoc(result, rest, "'");
        return result + rest + "'";
      }
      Assoc(result, rest[..where], "'\\''" + SqBody(rest[where + 1..]));
      Assoc(result + rest[..where], "'\\''", SqBody(rest[where + 1..]));
      result := result + rest[..where] + "'\\''";
      rest := rest[where + 1..];
      where := FindQuote(rest);
    }
  }

  function ArgvString(argv: seq<string>): string {
    if argv == [] then ""
    else SqQuoted(argv[0]) + (if |argv| == 1 then "" else " " + ArgvString(argv[1..]))
  }

  lemma ArgvStringTwo(first: string, last: string)
    ensures ArgvString([first] + [last]) == ArgvString([first]) + " " + SqQuoted(last)
  {
    ArgvStringOne(first);
    ArgvStringOne(last);
    ArgvStringCons(first, [last]);
    Assoc(SqQuoted(first), " ", SqQuoted(last));
  }

  lemma ArgvStringOne(arg: string)
    ensures ArgvString([arg]) == SqQuoted(arg)
  {
    Neutral(SqQuoted(arg));
  }

  lemma ArgvStringCons(first: string, rest: seq<string>)
    requires rest != []
    ensures ArgvString([first] + rest) == SqQuoted(first) + (" " + ArgvString(rest))
  {
    SplitConcat([first], rest);
  }

  lemma {:induction false} ArgvStringSnoc(argv: seq<string>, last: string)
    requires argv != []
    ensures ArgvString(argv + [last]) == ArgvString(argv) + " " + SqQuoted(last)
  {
    var first, rest := argv[0], argv[1..];
    assert argv == [first] + rest;
    if rest == [] {
      Neutral([first]);
      ArgvStringTwo(first, last);
    } else {
      ArgvStringSnoc(rest, last);
      Assoc([first], rest, [last]);
      ArgvStringCons(first, rest);
      ArgvStringCons(first, rest + [last]);
      LongerTail(SqQuoted(first), ArgvString(rest), SqQuoted(last));
    }
  }

  lemma LongerTail(first: string, rest: string, last: string)
    ensures first + (" " + (rest + " " + last)) == first + (" " + rest) + " " + last
  {
  }

  /** `convert_argv_to_string` */
  method ConvertArgvToString(command: seq<string>) returns (result: string)
    ensures result == ArgvString(command)
  {
    if command == [] {
      return "";
    }
    result := SqQuote(command[0]);
    assert command[..1] == [command[0]];
    for i := 1 to |command|
      invariant result == ArgvString(command[..i])
    {
      var quoted := SqQuote(command[i]);
      ArgvStringSnoc(command[..i], command[i]);
      assert command[..i + 1] == command[..i] + [command[i]];
      result := result + " " + quoted;
    }
    assert command[..|command|] == command;
  }

  function Words(argv: seq<string>): (r: seq<Token>)
    ensures |r| == |argv|
  {
    if argv == [] then [] else [Word(argv[0])] + Words(argv[1..])
  }

  lemma QuotedChar(c: char, rest: string)
    requires c != '\''
    ensures SingleQuoted([c] + rest) == Prepend([c], SingleQuoted(rest))
  {
    SplitConcat([c], rest);
  }

  /** A closing quote and an escaped quote. */
  lemma EscapedQuote(rest: string)
    ensures SingleQuoted("'\\'" + rest) == Prepend("'", ShellWord(rest))
  {
    var escaped := "\\'" + rest;
    SplitConcat("\\'", rest);
    Assoc("'", "\\'", rest);
    SplitConcat("'", escaped);
    assert "'\\'" + rest == "'" + escaped;
  }

  /** The same with the quote opened again. */
  lemma ReopenedQuote(rest: string)
    ensures SingleQuoted("'\\''" + rest) == Prepend("'", SingleQuoted(rest))
  {
    EscapedQuote("'" + rest);
    SplitConcat("'", rest);
    assert "'\\''" == "'\\'" + "'";
    Assoc("'\\'", "'", rest);
    assert ShellWord("'" + rest) == SingleQuoted(rest);
  }

  /** A quoted string followed by anything is read back as itself, with nothing left to interpretation. */
  lemma {:induction false} QuotedBodyReadsBack(input: string, rest: string)
    ensures SingleQuoted(SqBody(input) + rest) == Prepend(input, ShellWord(rest))
  {
    if input == "" {
      SplitConcat("'", rest);
      PrependNothing(ShellWord(rest));
    } else if input == "'" {
      EscapedQuote(rest);
    } else {
      var c, body := [input[0]], SqBody(input[1..]);
      QuotedBodyReadsBack(input[1..], rest);
      PrependTwice(c, input[1..], ShellWord(rest));
      assert input == c + input[1..];
      if input[0] == '\'' {
        ReopenedQuote(body + rest);
        Assoc("'\\''", body, rest);
      } else {
        QuotedChar(input[0], body + rest);
        Assoc(c, body, rest);
      }
    }
  }

  lemma QuotedWordReadsBack(input: string, rest: string)
    requires rest == "" || rest[0] == ' '
    requires ShellTokens(rest).Some?
    ensures ShellTokens(SqQuoted(input) + rest) == Some([Word(input)] + ShellTokens(rest).value)
  {
    assert ShellWord(rest) == Reading("", ShellTokens(rest).value);
    QuotedBodyReadsBack(input, rest);
    Assoc("'", SqBody(input), rest);
    SplitConcat("'", SqBody(input) + rest);
    Neutral(input);
    assert ShellWord(SqQuoted(input) + rest) == SingleQuoted(SqBody(input) + rest);
  }

  /** The shell splits `convert_argv_to_string(argv)` into exactly `argv`. */
  lemma {:induction false} ShellReadsBackArgv(argv: seq<string>)
    ensures ShellTokens(ArgvString(argv)) == Some(Words(argv))
  {
    if argv != [] {
      var rest := if |argv| == 1 then "" else " " + ArgvString(argv[1..]);
      if |argv| > 1 {
        ShellReadsBackArgv(argv[1..]);
        assert rest[1..] == ArgvString(argv[1..]);
      }
      QuotedWordReadsBack(argv[0], rest);
    }
  }

  /** The command that enters `path` first (src/main.cc, `I3Executable::execute`). */
  function CdCommand(path: string, argv: seq<string>): string {
    "cd " + SqQuoted(path) + " && " + ArgvString(argv)
  }

  /** An unquoted word without special characters is read as it stands. */
  lemma {:induction false} PlainWord(word: string, rest: string)
    requires forall c <- word :: !Special(c)
    ensures ShellWord(word + rest) == Prepend(word, ShellWord(rest))
  {
    var text := word + rest;
    if word == "" {
      assert text == rest;
      PrependNothing(ShellWord(rest));
    } else {
      PlainWord(word[1..], rest);
      assert text[1..] == word[1..] + rest;
      assert text[0] == word[0] && !Special(word[0]);
      PrependTwice([word[0]], word[1..], ShellWord(rest));
      assert [word[0]] + word[1..] == word;
    }
  }

  lemma CommandWord(word: string, rest: string)
    requires word != "" && forall c <- word :: !Special(c)
    requires rest != "" && rest[0] == ' ' && ShellTokens(rest[1..]).Some?
    ensures ShellTokens(word + rest) == Some([Word(word)] + ShellTokens(rest[1..]).value)
  {
    PlainWord(word, rest);
    assert ShellWord(rest) == Reading("", ShellTokens(rest[1..]).value);
    Neutral(word);
    assert (word + rest)[0] == word[0] && !Special(word[0]);
  }

  lemma AndIfWord(rest: string)
    requires ShellTokens(rest).Some?
    ensures ShellTokens(" && " + rest) == Some([AndIf] + ShellTokens(rest).value)
  {
    var spaced := " " + rest;
    var operator := "&&" + spaced;
    SplitConcat(" ", rest);
    SplitConcat("&&", spaced);
    SplitConcat(" ", operator);
    assert ShellTokens(spaced) == ShellTokens(rest);
    assert operator[0] == '&' && operator[1] == '&' && operator[2..] == spaced;
    assert ShellTokens(operator) == AndIfTokens(operator);
    assert " && " + rest == " " + operator;
  }

  lemma TwoTokens(a: Token, b: Token, rest: seq<Token>)
    ensures [a] + ([b] + rest) == [a, b] + rest
  {
  }

  lemma PathAndCommand(path: string, argv: seq<string>)
    ensures ShellTokens(SqQuoted(path) + (" && " + ArgvString(argv))) == Some([Word(path), AndIf] + Words(argv))
  {
    ShellReadsBackArgv(argv);
    AndIfWord(ArgvString(argv));
    QuotedWordReadsBack(path, " && " + ArgvString(argv));
    TwoTokens(Word(path), AndIf, Words(argv));
  }

  lemma CdCommandParts(path: string, argv: seq<string>)
    ensures CdCommand(path, argv) == "cd" + (" " + (SqQuoted(path) + (" && " + ArgvString(argv))))
  {
    Assoc("cd " + SqQuoted(path), " && ", ArgvString(argv));
    Assoc("cd ", SqQuoted(path), " && " + ArgvString(argv));
    assert "cd " == "cd" + " ";
    Assoc("cd", " ", SqQuoted(path) + (" && " + ArgvString(argv)));
  }

  /** The shell splits the command into `cd`, exactly `path`, `&&` and exactly `argv`. */
  lemma ShellReadsBackCdCommand(path: string, argv: seq<string>)
    ensures ShellTokens(CdCommand(path, argv)) == Some([Word("cd"), Word(path), AndIf] + Words(argv))
  {
    PathAndCommand(path, argv);
    var quoted := SqQuoted(path) + (" && " + ArgvString(argv));
    SplitConcat(" ", quoted);
    CommandWord("cd", " " + quoted);
    CdCommandParts(path, argv);
    assert [Word("cd")] + ([Word(path), AndIf] + Words(argv)) == [Word("cd"), Word(path), AndIf] + Words(argv);
  }
}
