/**
 src/Application.cc: the escape sequences of string values (section 4 of the Desktop Entry Specification),
 string lists, and the choice among localized values.
 */
module DesktopEntries {
  import opened Utilities
  import opened CMDLineAssembler
  import opened LocaleMatching

  // ------------------------------------------------------------------------------------------
  // Strings
  // ------------------------------------------------------------------------------------------

  /** `convert`; None stands for `escape_error`. */
  function Convert(escape: char): Option<char> {
    match escape
    case 's' => Some(' ')
    case 'n' => Some('\n')
    case 't' => Some('\t')
    case 'r' => Some('\r')
    case '\\' => Some('\\')
    case _ => None
  }

  function ConsChar(c: char, rest: Option<string>): Option<string> {
    if rest.None? then None else Some([c] + rest.value)
  }

  /** The string that an escaped value denotes. */
  function Unescaped(value: string): Option<string>
    decreases |value|
  {
    if value == "" then Some("")
    else if value[0] != '\\' then ConsChar(value[0], Unescaped(value[1..]))
    else if |value| == 1 || Convert(value[1]).None? then None
    else ConsChar(Convert(value[1]).value, Unescaped(value[2..]))
  }

  function Glue(prefix: string, rest: Option<string>): Option<string> {
    if rest.None? then None else Some(prefix + rest.value)
  }

  lemma GlueCons(prefix: string, c: char, rest: Option<string>)
    ensures Glue(prefix, ConsChar(c, rest)) == Glue(prefix + [c], rest)
  {
    if rest.Some? {
      assert prefix + ([c] + rest.value) == prefix + [c] + rest.value;
    }
  }

  /** `expand`; None stands for `escape_error`. */
  method Expand(value: CString) returns (r: Option<string>)
    ensures r == Unescaped(value)
  {
    var result := "";
    var escape := false;
    ghost var whole := Unescaped(value);
    assert value[0..] == value;
    assert whole.Some? ==> "" + whole.value == whole.value;
    for i := 0 to |value|
      invariant escape ==> i > 0 && value[i - 1] == '\\'
      invariant Glue(result, Unescaped(if escape then value[i - 1..] else value[i..])) == whole
    {
      ghost var s := if escape then value[i - 1..] else value[i..];
      assert if escape then s[2..] == value[i + 1..] else s[1..] == value[i + 1..];
      if escape {
        var c := Convert(value[i]);
        if c.None? {
          return None;
        }
        GlueCons(result, c.value, Unescaped(s[2..]));
        result := result + [c.value];
        escape := false;
      } else if value[i] == '\\' {
        escape := true;
      } else {
        GlueCons(result, value[i], Unescaped(s[1..]));
        result := result + [value[i]];
      }
    }
    if escape {
      return None;
    }
    assert result + "" == result;
    return Some(result);
  }

  /** The escaped form of a character inside a value; a newline would end the line. */
  function EscapedChar(c: char): string {
    match c
    case '\\' => "\\\\"
    case '\n' => "\\n"
    case '\t' => "\\t"
    case '\r' => "\\r"
    case _ => [c]
  }

  function Escaped(s: string): string {
    if s == "" then "" else EscapedChar(s[0]) + Escaped(s[1..])
  }

  lemma StringCharReadsBack(c: char, rest: string)
    ensures Unescaped(EscapedChar(c) + rest) == ConsChar(c, Unescaped(rest))
  {
    var text := EscapedChar(c) + rest;
    SplitConcat(EscapedChar(c), rest);
    if |EscapedChar(c)| == 2 {
      assert text[0] == '\\' && text[1] == EscapedChar(c)[1] && Convert(text[1]) == Some(c);
    } else {
      assert text[0] == c && c != '\\';
    }
  }

  lemma {:induction false} EscapedIsOneLine(s: string)
    ensures '\n' !in Escaped(s)
    ensures '\0' !in s ==> '\0' !in Escaped(s)
  {
    if s != "" {
      EscapedIsOneLine(s[1..]);
      assert '\n' !in EscapedChar(s[0]) && (s[0] != '\0' ==> '\0' !in EscapedChar(s[0]));
      assert forall c :: c in s[1..] ==> c in s;
    }
  }

  lemma {:induction false} EscapedReadsBack(s: string)
    ensures Unescaped(Escaped(s)) == Some(s)
  {
    if s != "" {
      EscapedReadsBack(s[1..]);
      StringCharReadsBack(s[0], Escaped(s[1..]));
      assert s == [s[0]] + s[1..];
    }
  }

  /** Any string can be written on one line of a desktop file and is read back from there. */
  lemma StringRoundTrip(s: string)
    ensures Unescaped(Escaped(s)) == Some(s)
    ensures '\n' !in Escaped(s)
    ensures '\0' !in s ==> '\0' !in Escaped(s)
  {
    EscapedReadsBack(s);
    EscapedIsOneLine(s);
  }

  /** In particular a Name can have a newline. */
  lemma NamesMayHaveNewlines()
    ensures Unescaped("a\\nb") == Some("a\nb")
  {
    EscapedReadsBack("a\nb");
    assert "a\nb"[1..] == "\nb" && "\nb"[1..] == "b" && "b"[1..] == "";
    assert Escaped("b") == "b" && Escaped("\nb") == "\\nb";
  }

  /** No leading space is lost when the value is read from its line. */
  lemma EncodingStartsWithQuote(argv: seq<string>)
    ensures argv == [] ==> Escaped(EncodeExec(argv)) == ""
    ensures argv != [] ==> Escaped(EncodeExec(argv)) != "" && Escaped(EncodeExec(argv))[0] == '"'
  {
    if argv != [] {
      assert EncodeExec(argv)[0] == EncodeArgument(argv[0])[0] == '"';
    }
  }

  /**
   The Exec key through both layers: encode `argv` as the specification prescribes, escape it as a string
   value, and the program reads it back in both modes, except for an empty last argument.
   */
  lemma TwoLayerExecRoundTrip(argv: seq<CString>, wine: bool)
    ensures var value := Escaped(EncodeExec(argv));
            && '\n' !in value && (value != "" ==> value[0] == '"')
            && Unescaped(value).Some?
            && WellFormedExec(Unescaped(value).value)
            && AllWords(Split(Unescaped(value).value, Plain, wine)) == Some(DropEmptyLast(argv))
            && (DropEmptyLast(argv) == argv <==> argv == [] || argv[|argv| - 1] != "")
  {
    StringRoundTrip(EncodeExec(argv));
    ExecRoundTrip(argv, wine);
    EncodingStartsWithQuote(argv);
  }

  // ------------------------------------------------------------------------------------------
  // Lists of strings
  // ------------------------------------------------------------------------------------------

  /** The items of a list value; every `;` ends one, and a backslash also protects a `;`. */
  function ReadList(value: string): Reading<string>
    decreases |value|
  {
    if value == "" then Reading("", [])
    else if value[0] == ';' then NewWord(ReadList(value[1..]))
    else if value[0] != '\\' then Prepend([value[0]], ReadList(value[1..]))
    else if |value| == 1 then Malformed
    else if value[1] == ';' then Prepend(";", ReadList(value[2..]))
    else if Convert(value[1]).None? then Malformed
    else Prepend([Convert(value[1]).value], ReadList(value[2..]))
  }

  /** First NUL of a buffer from `from` on, or its length. */
  function NextNul(buffer: string, from: nat): (end: nat)
    requires from <= |buffer|
    ensures from <= end <= |buffer| && (end < |buffer| ==> buffer[end] == '\0')
    ensures forall k :: from <= k < end ==> buffer[k] != '\0'
    decreases |buffer| - from
  {
    if from == |buffer| || buffer[from] == '\0' then from else NextNul(buffer, from + 1)
  }

  /** The text that the loop of `expandlist` runs over: it looks for the terminator only behind the first character. */
  function ListText(buffer: string, value: nat): string
    requires value < |buffer|
  {
    buffer[value..NextNul(buffer, value + 1)]
  }

  /**
   `expandlist` on the value that begins at this place of a buffer; some NUL must come later, or the source would
   read past the end of the buffer.
   */
  method ExpandList(buffer: string, value: nat) returns (r: Option<seq<string>>)
    requires value < |buffer| && NextNul(buffer, value + 1) < |buffer|
    ensures r == AllWords(ReadList(ListText(buffer, value)))
  {
    var result: seq<string> := [];
    var curr := "";
    var escape := false;
    ghost var text := ListText(buffer, value);
    ghost var whole := ReadList(text);
    assert text[0..] == text;
    var i := 0;
    while true
      invariant 0 <= i < |text|
      invariant escape ==> i > 0 && text[i - 1] == '\\'
      invariant Resume(result, curr, ReadList(if escape then text[i - 1..] else text[i..])) == Resume([], "", whole)
      decreases |text| - i
    {
      var ch := buffer[value + i];
      ghost var s := if escape then text[i - 1..] else text[i..];
      assert ch == text[i] && if escape then s[2..] == text[i + 1..] else s[1..] == text[i + 1..];
      if escape {
        if ch == ';' {
          ResumePrepend(result, curr, ";", ReadList(s[2..]));
          curr := curr + ";";
        } else {
          var c := Convert(ch);
          if c.None? {
            return None;
          }
          ResumePrepend(result, curr, [c.value], ReadList(s[2..]));
          curr := curr + [c.value];
        }
        escape := false;
      } else if ch == '\\' {
        escape := true;
      } else if ch == ';' {
        ResumeNewWord(result, curr, ReadList(s[1..]));
        result := result + [curr];
        curr := "";
      } else {
        ResumePrepend(result, curr, [ch], ReadList(s[1..]));
        curr := curr + [ch];
      }
      i := i + 1;
      if buffer[value + i] == '\0' {
        assert i == |text|;
        break;
      }
    }
    if escape {
      assert text[i - 1..] == "\\";
      return None;
    }
    assert text[i..] == "";
    FinishedWords(result, curr, whole);
    if curr != "" {
      result := result + [curr];
    }
    return Some(result);
  }

  lemma {:induction false} NextNulIs(buffer: string, from: nat, end: nat)
    requires from <= end < |buffer| && buffer[end] == '\0' && forall k :: from <= k < end ==> buffer[k] != '\0'
    ensures NextNul(buffer, from) == end
  {
  }

  /** Such a buffer: the value, the text behind it and whatever follows. */
  function ValueInBuffer(before: string, value: CString, next: CString, after: string): string {
    before + value + "\0" + next + "\0" + after
  }

  lemma TextOfValue(before: string, value: CString, next: CString, after: string)
    requires value != ""
    ensures |before| < |ValueInBuffer(before, value, next, after)|
    ensures ListText(ValueInBuffer(before, value, next, after), |before|) == value
  {
    var buffer, start := ValueInBuffer(before, value, next, after), |before|;
    forall k | start <= k < start + |value| ensures buffer[k] == value[k - start] && value[k - start] in value {
    }
    NextNulIs(buffer, start + 1, start + |value|);
    assert buffer[start..start + |value|] == value;
  }

  lemma TextOfEmptyValue(before: string, next: CString, after: string)
    ensures |before| < |ValueInBuffer(before, "", next, after)|
    ensures ListText(ValueInBuffer(before, "", next, after), |before|) == "\0" + next
  {
    var buffer, start := ValueInBuffer(before, "", next, after), |before| + 1;
    Neutral(before);
    assert buffer == before + "\0" + next + "\0" + after;
    forall k | start <= k < start + |next| ensures buffer[k] == next[k - start] && next[k - start] in next {
    }
    NextNulIs(buffer, start, start + |next|);
    assert buffer[start - 1..start + |next|] == "\0" + next;
  }

  lemma ItemsBehindNul(next: string)
    ensures AllWords(ReadList("\0" + next)) != AllWords(ReadList(""))
  {
    var text := "\0" + next;
    assert text[1..] == next;
    assert ReadList(text) == Prepend("\0", ReadList(next));
  }

  /** The list of a value in a buffer is the list of the value itself exactly if the value is not empty. */
  lemma ListOfValue(before: string, value: CString, next: CString, after: string)
    ensures |before| < |ValueInBuffer(before, value, next, after)|
    ensures var text := ListText(ValueInBuffer(before, value, next, after), |before|);
            && text == (if value != "" then value else "\0" + next)
            && (AllWords(ReadList(text)) == AllWords(ReadList(value)) <==> value != "")
  {
    if value != "" {
      TextOfValue(before, value, next, after);
    } else {
      TextOfEmptyValue(before, next, after);
      ItemsBehindNul(next);
    }
  }

  /** A list value with every item terminated. */
  function EncodeList(items: seq<string>): string {
    if items == [] then "" else EscapedItem(items[0]) + (";" + EncodeList(items[1..]))
  }

  function EscapedItem(item: string): string {
    if item == "" then ""
    else EscapedItemChar(item[0]) + EscapedItem(item[1..])
  }

  function EscapedItemChar(c: char): string {
    if c == ';' then "\\;" else EscapedChar(c)
  }

  lemma ItemCharReadsBack(c: char, rest: string)
    ensures ReadList(EscapedItemChar(c) + rest) == Prepend([c], ReadList(rest))
  {
    assert (EscapedItemChar(c) + rest)[|EscapedItemChar(c)|..] == rest;
  }

  lemma {:induction false} ItemReadsBack(item: string, rest: string)
    ensures ReadList(EscapedItem(item) + (";" + rest)) == Prepend(item, NewWord(ReadList(rest)))
  {
    var tail := ";" + rest;
    if item == "" {
      assert EscapedItem(item) + tail == tail && tail[1..] == rest;
      PrependNothing(NewWord(ReadList(rest)));
    } else {
      ItemReadsBack(item[1..], rest);
      ItemCharReadsBack(item[0], EscapedItem(item[1..]) + tail);
      assert EscapedItem(item) + tail == EscapedItemChar(item[0]) + (EscapedItem(item[1..]) + tail);
      PrependTwice([item[0]], item[1..], NewWord(ReadList(rest)));
      assert item == [item[0]] + item[1..];
    }
  }

  /** Any list of strings, with empty items anywhere, is read back from its terminated encoding. */
  lemma {:induction false} ListRoundTrip(items: seq<string>)
    ensures AllWords(ReadList(EncodeList(items))) == Some(items)
    ensures var r := ReadList(EncodeList(items)); r.Reading? && [r.word] + r.rest == items + [""]
  {
    if items != [] {
      ListRoundTrip(items[1..]);
      var r := ReadList(EncodeList(items[1..]));
      ItemReadsBack(items[0], EncodeList(items[1..]));
      Neutral(items[0]);
      assert items == [items[0]] + items[1..];
      Assoc([items[0]], items[1..], [""]);
    }
    SplitConcat(items, [""]);
  }

  // ------------------------------------------------------------------------------------------
  // Localized names
  // ------------------------------------------------------------------------------------------

  const DEFAULT_RANK := 4

  /** A `key=value` line. */
  datatype KeyValue = KeyValue(key: string, value: CString)

  /**
   How well a key that starts with `prefix` fits: the index of its locale among the candidates, 4 for a
   key without locale, -1 for no fit. The last character of the key is taken to be the closing bracket.
   */
  function KeyRank(key: string, prefix: string, candidates: seq<string>): (r: int)
    ensures -1 <= r
  {
    if !StartsWith(key, prefix) then -1
    else if |key| == |prefix| || key[|prefix|] != '[' then DEFAULT_RANK
    else if |key| == |prefix| + 1 then -1
    else FirstIndex(candidates, key[|prefix| + 1..|key| - 1])
  }

  /** The best rank so far, -1 before any line fits, and the value chosen for it. */
  datatype Choice = Choice(rank: int, field: string)

  /** One line against the choice so far; None stands for `escape_error`. */
  function Choose(choice: Choice, rank: int, value: string): Option<Choice> {
    if rank == -1 || (choice.rank != -1 && choice.rank < rank) then Some(choice)
    else if Unescaped(value).None? then None
    else Some(Choice(rank, Unescaped(value).value))
  }

  /** `parse_localestring` */
  method ParseLocaleString(key: string, keyLength: nat, choice: Choice, value: CString, suffixes: LocaleSuffixes)
    returns (r: Option<Choice>)
    requires suffixes.Valid() && keyLength <= |key|
    requires -1 <= choice.rank <= DEFAULT_RANK
    ensures r == Choose(choice, KeyRank(key, key[..keyLength], suffixes.Candidates()), value)
    ensures r.Some? ==> -1 <= r.value.rank <= DEFAULT_RANK
  {
    if keyLength < |key| && key[keyLength] == '[' {
      if |key| == keyLength + 1 {
        return Some(choice);
      }
      var newMatch := suffixes.Match(key[keyLength + 1..|key| - 1]);
      if newMatch == -1 {
        return Some(choice);
      }
      if newMatch <= choice.rank || choice.rank == -1 {
        var field := Expand(value);
        return if field.None? then None else Some(Choice(newMatch, field.value));
      }
    } else if choice.rank == -1 || choice.rank == 4 {
      var field := Expand(value);
      return if field.None? then None else Some(Choice(4, field.value));
    }
    return Some(choice);
  }

  function LineRank(line: KeyValue, prefix: string, candidates: seq<string>): int {
    KeyRank(line.key, prefix, candidates)
  }

  /** All lines of a file against one of the two localized keys. */
  function ChooseAll(lines: seq<KeyValue>, prefix: string, candidates: seq<string>): Option<Choice> {
    if lines == [] then Some(Choice(-1, ""))
    else
      var last := lines[|lines| - 1];
      var before := ChooseAll(lines[..|lines| - 1], prefix, candidates);
      if before.None? then None else Choose(before.value, LineRank(last, prefix, candidates), last.value)
  }

  /** The two localized keys of one desktop file, read in one pass over its lines. */
  method ReadNames(lines: seq<KeyValue>, suffixes: LocaleSuffixes) returns (r: Option<(string, string)>)
    requires suffixes.Valid()
    ensures var name, genericName := ChooseAll(lines, "Name", suffixes.Candidates()),
                                     ChooseAll(lines, "GenericName", suffixes.Candidates());
            r == if name.None? || genericName.None? then None else Some((name.value.field, genericName.value.field))
  {
    var name, genericName := Choice(-1, ""), Choice(-1, "");
    ghost var candidates := suffixes.Candidates();
    for k := 0 to |lines|
      invariant -1 <= name.rank <= DEFAULT_RANK && -1 <= genericName.rank <= DEFAULT_RANK
      invariant ChooseAll(lines[..k], "Name", candidates) == Some(name)
      invariant ChooseAll(lines[..k], "GenericName", candidates) == Some(genericName)
    {
      var line := lines[k];
      var next: Option<Choice> := None;
      assert lines[..k + 1][..k] == lines[..k];
      assert StartsWith(line.key, "Name") ==> line.key[0] == 'N';
      assert StartsWith(line.key, "GenericName") ==> line.key[0] == 'G';
      if StartsWith(line.key, "Name") {
        next := ParseLocaleString(line.key, 4, name, line.value, suffixes);
        if next.Some? {
          name := next.value;
        }
      } else if StartsWith(line.key, "GenericName") {
        next := ParseLocaleString(line.key, 11, genericName, line.value, suffixes);
        if next.Some? {
          genericName := next.value;
        }
      } else {
        next := Some(name);
      }
      if next.None? {
        ChooseAllFails(lines, k + 1, if StartsWith(line.key, "Name") then "Name" else "GenericName", candidates);
        return None;
      }
    }
    assert lines[..|lines|] == lines;
    return Some((name.field, genericName.field));
  }

  lemma {:induction false} ChooseAllFails(lines: seq<KeyValue>, k: nat, prefix: string, candidates: seq<string>)
    requires k <= |lines| && ChooseAll(lines[..k], prefix, candidates).None?
    ensures ChooseAll(lines, prefix, candidates).None?
    decreases |lines|
  {
    if k < |lines| {
      assert lines[..|lines| - 1][..k] == lines[..k];
      ChooseAllFails(lines[..|lines| - 1], k, prefix, candidates);
    } else {
      assert lines[..k] == lines;
    }
  }

  /** Line `i` is the best of all: no line fits better, and later lines fit worse. */
  ghost predicate IsBest(lines: seq<KeyValue>, prefix: string, candidates: seq<string>, i: nat) {
    && i < |lines|
    && LineRank(lines[i], prefix, candidates) != -1
    && forall j :: 0 <= j < |lines| ==> !Overrides(lines, prefix, candidates, j, i)
  }

  /** Line `j` takes precedence over line `i`. */
  predicate Overrides(lines: seq<KeyValue>, prefix: string, candidates: seq<string>, j: nat, i: nat)
    requires i < |lines| && j < |lines|
  {
    var r, best := LineRank(lines[j], prefix, candidates), LineRank(lines[i], prefix, candidates);
    r != -1 && (r < best || (r == best && i < j))
  }

  ghost predicate NoneFits(lines: seq<KeyValue>, prefix: string, candidates: seq<string>) {
    forall line <- lines :: LineRank(line, prefix, candidates) == -1
  }

  /** The choice is the value of the best line; without any fitting line the field stays empty. */
  ghost predicate Chosen(lines: seq<KeyValue>, prefix: string, candidates: seq<string>, choice: Choice) {
    if choice.rank == -1 then choice.field == "" && NoneFits(lines, prefix, candidates)
    else exists i: nat :: IsBest(lines, prefix, candidates, i)
                     && choice.rank == LineRank(lines[i], prefix, candidates)
                     && Unescaped(lines[i].value) == Some(choice.field)
  }

  /** One more line overrides the choice exactly when it becomes the best line. */
  lemma ChosenStep(before: seq<KeyValue>, line: KeyValue, prefix: string, candidates: seq<string>, choice: Choice)
    requires Chosen(before, prefix, candidates, choice)
    ensures var all, rank := before + [line], LineRank(line, prefix, candidates);
            if IsBest(all, prefix, candidates, |before|)
            then rank != -1 && (choice.rank == -1 || rank <= choice.rank)
            else (rank == -1 || (choice.rank != -1 && choice.rank < rank)) && Chosen(all, prefix, candidates, choice)
  {
    var all, n := before + [line], |before|;
    var rank := LineRank(line, prefix, candidates);
    assert forall j :: 0 <= j < n ==> all[j] == before[j] && before[j] in before;
    if choice.rank != -1 {
      var i: nat :| IsBest(before, prefix, candidates, i) && choice.rank == LineRank(before[i], prefix, candidates)
               && Unescaped(before[i].value) == Some(choice.field);
      forall j | 0 <= j < n ensures !Overrides(all, prefix, candidates, j, i) {
        assert !Overrides(before, prefix, candidates, j, i);
      }
      if rank != -1 && rank <= choice.rank {
        forall j | 0 <= j < |all| ensures !Overrides(all, prefix, candidates, j, n) {
          assert j < n ==> !Overrides(all, prefix, candidates, j, i);
        }
      } else {
        assert IsBest(all, prefix, candidates, i);
        assert rank != -1 ==> Overrides(all, prefix, candidates, i, n);
      }
    }
  }

  /** Line `i` was the best when it was read, and its value has an invalid escape. */
  ghost predicate InvalidWhenBest(lines: seq<KeyValue>, prefix: string, candidates: seq<string>, i: nat) {
    i < |lines| && IsBest(lines[..i + 1], prefix, candidates, i) && Unescaped(lines[i].value).None?
  }

  /** Reading the lines in any order leaves the value of the best-ranked line, the last one among equals. */
  lemma {:induction false} TheBestLineIsChosen(lines: seq<KeyValue>, prefix: string, candidates: seq<string>)
    requires ChooseAll(lines, prefix, candidates).Some?
    ensures Chosen(lines, prefix, candidates, ChooseAll(lines, prefix, candidates).value)
  {
    if lines != [] {
      var n := |lines| - 1;
      TheBestLineIsChosen(lines[..n], prefix, candidates);
      assert lines == lines[..n] + [lines[n]];
      ChosenStep(lines[..n], lines[n], prefix, candidates, ChooseAll(lines[..n], prefix, candidates).value);
      var choice := ChooseAll(lines, prefix, candidates).value;
      if IsBest(lines, prefix, candidates, n) {
        assert choice.rank == LineRank(lines[n], prefix, candidates);
      }
    }
  }

  /** Reading fails exactly if some line that was the best when it was read has an invalid escape. */
  lemma {:induction false} OnlyABestLineCanFail(lines: seq<KeyValue>, prefix: string, candidates: seq<string>)
    ensures ChooseAll(lines, prefix, candidates).None? <==> SomeInvalidWhenBest(lines, prefix, candidates)
  {
    if lines != [] {
      var n := |lines| - 1;
      OnlyABestLineCanFail(lines[..n], prefix, candidates);
      assert lines == lines[..n] + [lines[n]];
      EarlierInvalid(lines[..n], lines[n], prefix, candidates);
      if ChooseAll(lines[..n], prefix, candidates).Some? {
        TheBestLineIsChosen(lines[..n], prefix, candidates);
        LastLineFails(lines[..n], lines[n], prefix, candidates);
      }
    }
  }

  ghost predicate SomeInvalidWhenBest(lines: seq<KeyValue>, prefix: string, candidates: seq<string>) {
    exists i: nat :: InvalidWhenBest(lines, prefix, candidates, i)
  }

  /** Whether an earlier line was the best does not depend on a later one. */
  lemma EarlierInvalid(before: seq<KeyValue>, line: KeyValue, prefix: string, candidates: seq<string>)
    ensures SomeInvalidWhenBest(before + [line], prefix, candidates)
            <==> SomeInvalidWhenBest(before, prefix, candidates)
                 || InvalidWhenBest(before + [line], prefix, candidates, |before|)
  {
    var all := before + [line];
    forall i: nat | i < |before|
      ensures InvalidWhenBest(all, prefix, candidates, i) <==> InvalidWhenBest(before, prefix, candidates, i)
    {
      assert all[..i + 1] == before[..i + 1];
    }
    if SomeInvalidWhenBest(before, prefix, candidates) {
      var i: nat :| InvalidWhenBest(before, prefix, candidates, i);
      assert InvalidWhenBest(all, prefix, candidates, i);
    }
  }

  lemma LastLineFails(before: seq<KeyValue>, line: KeyValue, prefix: string, candidates: seq<string>)
    requires ChooseAll(before, prefix, candidates).Some?
    requires Chosen(before, prefix, candidates, ChooseAll(before, prefix, candidates).value)
    ensures ChooseAll(before + [line], prefix, candidates).None?
            <==> InvalidWhenBest(before + [line], prefix, candidates, |before|)
  {
    var all := before + [line];
    ChosenStep(before, line, prefix, candidates, ChooseAll(before, prefix, candidates).value);
    SplitConcat(before, [line]);
    assert all[..|before| + 1] == all && all[|before|] == line;
  }

  // ---- what the keys mean -------------------------------------------------------------------

  function LocalizedKey(prefix: string, locale: string): string {
    prefix + "[" + locale + "]"
  }

  /** A key with a locale fits as well as its locale stands among the candidates, and not at all if it is none. */
  lemma LocalizedKeyRank(prefix: string, locale: string, candidates: seq<string>)
    ensures var rank := KeyRank(LocalizedKey(prefix, locale), prefix, candidates);
            && (rank == -1 <==> locale !in candidates)
            && (rank != -1 ==> && rank < |candidates| && candidates[rank] == locale
                               && forall k :: 0 <= k < rank ==> candidates[k] != locale)
  {
    var key := LocalizedKey(prefix, locale);
    assert key[..|prefix|] == prefix && key[|prefix|] == '[';
    assert key[|prefix| + 1..|key| - 1] == locale;
  }

  /** The plain key fits behind all candidates. */
  lemma PlainKeyRank(prefix: string, candidates: seq<string>)
    requires |candidates| <= 4
    ensures KeyRank(prefix, prefix, candidates) >= |candidates|
    ensures KeyRank(prefix, prefix, candidates) == DEFAULT_RANK
  {
    assert prefix[..|prefix|] == prefix;
  }

  /** A key that merely begins like the plain key counts as the plain key, unless a bracket follows. */
  lemma LongerKeyRank(prefix: string, c: char, rest: string, candidates: seq<string>)
    requires |candidates| <= 4
    ensures KeyRank(prefix + [c] + rest, prefix, candidates) == DEFAULT_RANK <==> c != '['
  {
    var key := prefix + [c] + rest;
    assert key[..|prefix|] == prefix && key[|prefix|] == c;
  }

  /** So such a key overrides the name of the application. */
  lemma OtherKeyOverridesName(candidates: seq<string>)
    requires |candidates| <= 4
    ensures ChooseAll([KeyValue("Name", "A"), KeyValue("NameX", "B")], "Name", candidates) == Some(Choice(4, "B"))
  {
    var a, b := KeyValue("Name", "A"), KeyValue("NameX", "B");
    PlainKeyRank("Name", candidates);
    assert "NameX" == "Name" + ['X'] + "";
    LongerKeyRank("Name", 'X', "", candidates);
    assert [a, b][..1] == [a] && [a][..0] == [];
    assert "A"[1..] == "" && "B"[1..] == "";
    assert Unescaped("A") == ConsChar('A', Unescaped("A"[1..])) && Unescaped("B") == ConsChar('B', Unescaped("B"[1..]));
    assert ['A'] + "" == "A" && ['B'] + "" == "B";
    assert LineRank(a, "Name", candidates) == 4 && LineRank(b, "Name", candidates) == 4;
    assert ChooseAll([], "Name", candidates) == Some(Choice(-1, ""));
    assert ChooseAll([a], "Name", candidates) == Choose(Choice(-1, ""), 4, "A") == Some(Choice(4, "A"));
    assert [a, b][1] == b;
  }

  // ---- the keys of a locale -----------------------------------------------------------------

  /** The keys that section 5 of the Desktop Entry Specification looks for, in its order. */
  function KeysInOrder(l: Locale, prefix: string): seq<string> {
    LocalizedKeys(prefix, MatchingOrder(l)) + [prefix]
  }

  function LocalizedKeys(prefix: string, locales: seq<string>): seq<string> {
    seq(|locales|, i requires 0 <= i < |locales| => LocalizedKey(prefix, locales[i]))
  }

  /** A key is the plain one, has a locale in brackets, or is another key. */
  ghost predicate WellFormedKey(key: string, prefix: string) {
    StartsWith(key, prefix) ==> key == prefix || exists locale :: key == LocalizedKey(prefix, locale)
  }

  lemma MatchingOrderIsDistinct(l: Locale)
    requires WellFormed(l)
    ensures 1 <= |MatchingOrder(l)| <= 4 && Distinct(MatchingOrder(l))
  {
    var country, modifier := Part('_', l.country), Part('@', l.modifier);
    var m := MatchingOrder(l);
    if l.country.Some? && l.modifier.Some? {
      assert m[0] == l.lang + country + modifier && m[1] == l.lang + country;
      assert m[2] == l.lang + modifier && m[3] == l.lang;
      assert m[1][|l.lang|] == '_' && m[2][|l.lang|] == '@';
      assert m[0][|l.lang|] == '_';
    }
  }

  /** Where a key of the list stands among the keys, its rank stands among the ranks. */
  lemma RankOfListedKey(l: Locale, prefix: string, i: nat)
    requires WellFormed(l) && i < |KeysInOrder(l, prefix)|
    ensures KeyRank(KeysInOrder(l, prefix)[i], prefix, MatchingOrder(l))
         == if i < |MatchingOrder(l)| then i else DEFAULT_RANK
  {
    var m := MatchingOrder(l);
    MatchingOrderIsDistinct(l);
    if i < |m| {
      LocalizedKeyRank(prefix, m[i], m);
    } else {
      PlainKeyRank(prefix, m);
    }
  }

  lemma ListedKeys(l: Locale, prefix: string, locale: string)
    ensures locale in MatchingOrder(l) ==> LocalizedKey(prefix, locale) in KeysInOrder(l, prefix)
  {
    var m, keys := MatchingOrder(l), KeysInOrder(l, prefix);
    assert forall i :: 0 <= i < |m| ==> keys[i] == LocalizedKey(prefix, m[i]);
  }

  /** A well-formed key that is not in the list does not fit. */
  lemma UnlistedKeyDoesNotFit(l: Locale, prefix: string, key: string)
    requires WellFormed(l) && WellFormedKey(key, prefix) && key !in KeysInOrder(l, prefix)
    ensures KeyRank(key, prefix, MatchingOrder(l)) == -1
  {
    var m, keys := MatchingOrder(l), KeysInOrder(l, prefix);
    if StartsWith(key, prefix) {
      assert keys[|m|] == prefix;
      var locale :| key == LocalizedKey(prefix, locale);
      LocalizedKeyRank(prefix, locale, m);
      ListedKeys(l, prefix, locale);
    }
  }

  /** Line `i` has the first of the keys that any line has, and is the last line with that key. */
  ghost predicate HasFirstKey(lines: seq<KeyValue>, keys: seq<string>, i: nat, k: nat) {
    && i < |lines| && k < |keys| && lines[i].key == keys[k]
    && (forall j, n :: 0 <= j < |lines| && 0 <= n < |keys| && lines[j].key == keys[n] ==> k <= n)
    && (forall j :: i < j < |lines| ==> lines[j].key != keys[k])
  }

  /**
   For every well-formed locale and every file whose keys are well-formed, the value that is chosen is that of the
   first of the specification's keys that is present, the last such line among several; a file without any of them
   leaves the field empty.
   */
  lemma FirstPresentKeyIsChosen(l: Locale, lines: seq<KeyValue>, prefix: string)
    requires WellFormed(l) && forall line <- lines :: WellFormedKey(line.key, prefix)
    requires ChooseAll(lines, prefix, Suffixes(LocaleText(l))).Some?
    ensures var keys, choice := KeysInOrder(l, prefix), ChooseAll(lines, prefix, Suffixes(LocaleText(l))).value;
            && (forall i: nat, k: nat | HasFirstKey(lines, keys, i, k) ::
                  Unescaped(lines[i].value) == Some(choice.field))
            && ((forall line <- lines :: line.key !in keys) ==> choice.field == "")
  {
    SuffixesFollowSpecification(l);
    var m, keys := MatchingOrder(l), KeysInOrder(l, prefix);
    var choice := ChooseAll(lines, prefix, m).value;
    TheBestLineIsChosen(lines, prefix, m);
    forall i: nat, k: nat | HasFirstKey(lines, keys, i, k) ensures Unescaped(lines[i].value) == Some(choice.field) {
      FirstKeyIsBest(l, lines, prefix, i, k);
      OneBestLine(lines, prefix, m, i, choice);
    }
    if forall line <- lines :: line.key !in keys {
      forall i: nat | i < |lines| ensures LineRank(lines[i], prefix, m) == -1 {
        assert lines[i] in lines;
        UnlistedKeyDoesNotFit(l, prefix, lines[i].key);
      }
    }
  }

  lemma FirstKeyIsBest(l: Locale, lines: seq<KeyValue>, prefix: string, i: nat, k: nat)
    requires WellFormed(l) && forall line <- lines :: WellFormedKey(line.key, prefix)
    requires HasFirstKey(lines, KeysInOrder(l, prefix), i, k)
    ensures IsBest(lines, prefix, MatchingOrder(l), i)
  {
    var m, keys := MatchingOrder(l), KeysInOrder(l, prefix);
    MatchingOrderIsDistinct(l);
    RankOfListedKey(l, prefix, k);
    forall j: nat | j < |lines| ensures !Overrides(lines, prefix, m, j, i) {
      assert lines[j] in lines;
      if lines[j].key in keys {
        var n :| 0 <= n < |keys| && keys[n] == lines[j].key;
        RankOfListedKey(l, prefix, n);
      } else {
        UnlistedKeyDoesNotFit(l, prefix, lines[j].key);
      }
    }
  }

  lemma OneBestLine(lines: seq<KeyValue>, prefix: string, candidates: seq<string>, i: nat, choice: Choice)
    requires IsBest(lines, prefix, candidates, i) && Chosen(lines, prefix, candidates, choice)
    ensures Unescaped(lines[i].value) == Some(choice.field)
  {
    assert lines[i] in lines;
    var n: nat :| IsBest(lines, prefix, candidates, n) && Unescaped(lines[n].value) == Some(choice.field);
    assert !Overrides(lines, prefix, candidates, i, n) && !Overrides(lines, prefix, candidates, n, i);
  }

  /** All five escapes of section 4, and no other. */
  lemma EscapesMean(c: char, rest: string)
    ensures Unescaped(['\\', c] + rest)
         == if c == 's' then ConsChar(' ', Unescaped(rest))
            else if c == 'n' then ConsChar('\n', Unescaped(rest))
            else if c == 't' then ConsChar('\t', Unescaped(rest))
            else if c == 'r' then ConsChar('\r', Unescaped(rest))
            else if c == '\\' then ConsChar('\\', Unescaped(rest))
            else None
  {
    assert (['\\', c] + rest)[2..] == rest;
  }
}
