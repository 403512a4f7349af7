/**
 src/CMDLineTerm.cc, `--term-mode custom`: a template is validated once, parsed into arguments with
 placeholder positions, and expanded in place from right to left.
 */
module CMDLineTerm {
  import opened Utilities
  import opened CMDLineAssembler

  // ------------------------------------------------------------------------------------------
  // The template language
  // ------------------------------------------------------------------------------------------

  datatype Placeholder = Name | CmdlineArgs | CmdlineString | Script

  function Text(p: Placeholder): string {
    match p
    case Name => "{name}"
    case CmdlineArgs => "{cmdline@}"
    case CmdlineString => "{cmdline*}"
    case Script => "{script}"
  }

  /** The placeholder that `s` starts with. */
  function PlaceholderAt(s: string): Option<Placeholder> {
    if StartsWith(s, "{name}") then Some(Name)
    else if StartsWith(s, "{cmdline@}") then Some(CmdlineArgs)
    else if StartsWith(s, "{cmdline*}") then Some(CmdlineString)
    else if StartsWith(s, "{script}") then Some(Script)
    else None
  }

  predicate EscapableInTerm(c: char) {
    c == '\\' || c == '{' || c == ' '
  }

  /** `Trailing` is a backslash at the very end, which escapes nothing. */
  datatype Symbol = Literal(c: char) | Hole(p: Placeholder) | Separator | Trailing

  /** The first symbol of a non-empty text and its length; None if the escape or the placeholder is unknown. */
  function First(s: string): (r: Option<(Symbol, nat)>)
    requires s != ""
    ensures r.Some? ==> 0 < r.value.1 <= |s|
  {
    if s == "\\" then Some((Trailing, 1))
    else if s[0] == '\\' then (if EscapableInTerm(s[1]) then Some((Literal(s[1]), 2)) else None)
    else if s[0] == ' ' then Some((Separator, 1))
    else if s[0] == '{' then
      var p := PlaceholderAt(s);
      if p.None? then None else Some((Hole(p.value), |Text(p.value)|))
    else Some((Literal(s[0]), 1))
  }

  /** The symbols of a template; None if an escape or a placeholder is unknown. */
  function Symbols(s: string): Option<seq<Symbol>>
    decreases |s|
  {
    if s == "" then Some([])
    else
      var first := First(s);
      if first.None? then None else Cons(first.value.0, Symbols(s[first.value.1..]))
  }

  function Cons<T>(x: T, xs: Option<seq<T>>): Option<seq<T>> {
    if xs.None? then None else Some([x] + xs.value)
  }

  /** Every `{cmdline@}` stands between separators; `separated` says that one precedes `symbols`. */
  predicate StandsAlone(separated: bool, symbols: seq<Symbol>)
    decreases |symbols|
  {
    symbols == []
    || ((symbols[0] == Hole(CmdlineArgs) ==> separated && (|symbols| == 1 || symbols[1].Separator?))
        && StandsAlone(symbols[0].Separator?, symbols[1..]))
  }

  /** The templates of the language. */
  predicate Accepted(term: string) {
    && term != ""
    && Symbols(term).Some?
    && StandsAlone(true, Symbols(term).value)
  }

  /** Arguments are the non-empty groups of symbols between separators; `curr` has been read already. */
  function Arguments(curr: seq<Symbol>, symbols: seq<Symbol>): seq<seq<Symbol>>
    decreases |symbols|
  {
    if symbols == [] then (if curr == [] then [] else [curr])
    else match symbols[0]
      case Separator => (if curr == [] then [] else [curr]) + Arguments([], symbols[1..])
      case Trailing => Arguments(curr, symbols[1..])
      case _ => Arguments(curr + [symbols[0]], symbols[1..])
  }

  function Template(term: string): seq<seq<Symbol>>
    requires Symbols(term).Some?
  {
    Arguments([], Symbols(term).value)
  }

  // ------------------------------------------------------------------------------------------
  // Meaning: simultaneous substitution
  // ------------------------------------------------------------------------------------------

  /** What the placeholders stand for; the script's path is safe to create and is opaque here. */
  datatype Environment = Environment(commandline: seq<string>, appName: string, script: string)

  function Replacement(p: Placeholder, env: Environment): string {
    match p
    case Name => env.appName
    case CmdlineArgs => ""
    case CmdlineString => ArgvString(env.commandline)
    case Script => env.script
  }

  /** One argument with every placeholder replaced once and everything else left alone. */
  function Filled(arg: seq<Symbol>, env: Environment): string {
    if arg == [] then ""
    else Filled(arg[..|arg| - 1], env) + FilledSymbol(arg[|arg| - 1], env)
  }

  function FilledSymbol(x: Symbol, env: Environment): string {
    match x
    case Literal(c) => [c]
    case Hole(p) => Replacement(p, env)
    case _ => ""
  }

  function Substituted(args: seq<seq<Symbol>>, env: Environment): seq<string> {
    if args == [] then []
    else Substituted(args[..|args| - 1], env) + FilledArgument(args[|args| - 1], env)
  }

  /** `{cmdline@}` becomes the whole command line; any other argument stays one argument. */
  function FilledArgument(arg: seq<Symbol>, env: Environment): seq<string> {
    if arg == [Hole(CmdlineArgs)] then env.commandline else [Filled(arg, env)]
  }

  predicate UsesScript(args: seq<seq<Symbol>>) {
    exists arg <- args :: Hole(Script) in arg
  }

  // ------------------------------------------------------------------------------------------
  // The validator
  // ------------------------------------------------------------------------------------------

  /** The checks of the validator, character by character; `separated` holds at the start and after a space. */
  predicate ValidFrom(s: string, escaped: bool, separated: bool) {
    s == ""
    || if escaped then EscapableInTerm(s[0]) && ValidFrom(s[1..], false, false)
       else (s[0] == '{' ==> ValidPlaceholder(s, separated)) && ValidFrom(s[1..], s[0] == '\\', s[0] == ' ')
  }

  predicate ValidPlaceholder(s: string, separated: bool) {
    && PlaceholderAt(s).Some?
    && (PlaceholderAt(s).value == CmdlineArgs ==> separated && (s == "{cmdline@}" || StartsWith(s, "{cmdline@} ")))
  }

  datatype ValidateData = ValidateData(begin: nat, hadSpace: bool)

  predicate ValidData(term: string, d: ValidateData) {
    d.begin < |term| && ValidPlaceholder(term[d.begin..], d.begin == 0 || d.hadSpace)
  }

  predicate AllValid(term: string, placeholders: seq<ValidateData>) {
    forall d <- placeholders :: ValidData(term, d)
  }

  /** `validate_custom_term`; false stands for exiting with an error. */
  method ValidateCustomTerm(term: string) returns (ok: bool)
    ensures ok <==> Accepted(term)
  {
    if term == "" {
      return false;
    }
    ValidIsAccepted(term, true);
    var placeholders := CollectPlaceholders(term);
    if placeholders.None? {
      return false;
    }
    ok := CheckPlaceholders(term, placeholders.value);
  }

  /** The loop over the characters; None stands for an invalid escape. */
  method CollectPlaceholders(term: string) returns (r: Option<seq<ValidateData>>)
    ensures r.Some? ==> forall d <- r.value :: d.begin < |term|
    ensures ValidFrom(term, false, true) <==> r.Some? && AllValid(term, r.value)
  {
    var placeholders: seq<ValidateData> := [];
    var escaped, hadSpace := false, false;
    ghost var rest := term;
    for i := 0 to |term|
      invariant rest == term[i..] && forall d <- placeholders :: d.begin < |term|
      invariant ValidFrom(term, false, true) <==>
                AllValid(term, placeholders) && ValidFrom(rest, escaped, i == 0 || hadSpace)
    {
      var ch := term[i];
      assert rest[1..] == term[i + 1..] && rest[0] == ch;
      rest := rest[1..];
      if escaped {
        if !EscapableInTerm(ch) {
          return None;
        }
        escaped, hadSpace := false, false;
      } else {
        if ch == '\\' {
          escaped := true;
        } else if ch == '{' {
          var d := ValidateData(i, hadSpace);
          OneMoreValid(term, placeholders, d);
          placeholders := placeholders + [d];
        }
        hadSpace := ch == ' ';
      }
    }
    return Some(placeholders);
  }

  /** The loop over the placeholders. */
  method CheckPlaceholders(term: string, placeholders: seq<ValidateData>) returns (ok: bool)
    requires forall d <- placeholders :: d.begin < |term|
    ensures ok <==> AllValid(term, placeholders)
  {
    for k := 0 to |placeholders|
      invariant forall d <- placeholders[..k] :: ValidData(term, d)
    {
      var ValidateData(begin, had) := placeholders[k];
      var placeholder := term[begin..];
      assert placeholders[k] in placeholders;
      StartsWithCmdline(placeholder);
      if PlaceholderAt(placeholder).None? {
        return false;
      }
      if StartsWith(placeholder, "{cmdline@}")
         && ((begin != 0 && !had) || (placeholder != "{cmdline@}" && !StartsWith(placeholder, "{cmdline@} "))) {
        return false;
      }
    }
    assert placeholders[..|placeholders|] == placeholders;
    return true;
  }

  lemma OneMoreValid(term: string, placeholders: seq<ValidateData>, d: ValidateData)
    ensures AllValid(term, placeholders + [d]) <==> AllValid(term, placeholders) && ValidData(term, d)
  {
    assert forall x :: x in placeholders + [d] <==> x in placeholders || x == d;
  }

  lemma StartsWithCmdline(s: string)
    ensures StartsWith(s, "{cmdline@}") <==> PlaceholderAt(s) == Some(CmdlineArgs)
  {
    assert StartsWith(s, "{cmdline@}") ==> s[1] == s[..10][1] == 'c';
    assert StartsWith(s, "{name}") ==> s[1] == s[..6][1] == 'n';
  }

  /** Characters that mean nothing to the validator. */
  lemma {:induction false} ValidSkips(s: string, k: nat)
    requires k <= |s| && forall i :: 0 <= i < k ==> s[i] != '\\' && s[i] != '{' && s[i] != ' '
    ensures ValidFrom(s, false, false) <==> ValidFrom(s[k..], false, false)
  {
    if k > 0 {
      ValidSkips(s[1..], k - 1);
      assert s[1..][k - 1..] == s[k..];
    }
  }

  lemma PlaceholderText(s: string)
    requires PlaceholderAt(s).Some?
    ensures var text := Text(PlaceholderAt(s).value);
            && |text| <= |s| && s[..|text|] == text && text[0] == '{' && text[|text| - 1] == '}'
            && forall i :: 0 < i < |text| - 1 ==> text[i] != '\\' && text[i] != '{' && text[i] != ' ' && text[i] != '}'
  {
  }

  /** The validator walks through placeholders that the grammar jumps over, yet accepts the same templates. */
  lemma {:induction false} ValidIsAccepted(s: string, separated: bool)
    ensures ValidFrom(s, false, separated) <==> Symbols(s).Some? && StandsAlone(separated, Symbols(s).value)
    decreases |s|
  {
    if s == "" {
    } else if s[0] == '\\' {
      if |s| > 1 && EscapableInTerm(s[1]) {
        ValidIsAccepted(s[2..], false);
        assert s[1..][1..] == s[2..];
        ConsStandsAlone(Literal(s[1]), s[2..], separated);
      }
    } else if s[0] == '{' {
      var p := PlaceholderAt(s);
      if p.Some? {
        PlaceholderText(s);
        var n := |Text(p.value)|;
        forall i | 0 <= i < n - 1 ensures s[1..][i] == Text(p.value)[i + 1] {
          assert s[..n][i + 1] == s[i + 1];
        }
        ValidSkips(s[1..], n - 1);
        assert s[1..][n - 1..] == s[n..];
        ValidIsAccepted(s[n..], false);
        ConsStandsAlone(Hole(p.value), s[n..], separated);
        if p.value == CmdlineArgs {
          AfterCmdline(s);
        }
      }
    } else {
      ValidIsAccepted(s[1..], s[0] == ' ');
      ConsStandsAlone(if s[0] == ' ' then Separator else Literal(s[0]), s[1..], separated);
    }
  }

  lemma ConsStandsAlone(x: Symbol, rest: string, separated: bool)
    ensures var all := Cons(x, Symbols(rest));
            all.Some? ==>
              (StandsAlone(separated, all.value) <==>
               && (x == Hole(CmdlineArgs) ==> separated && (rest == "" || rest[0] == ' '))
               && StandsAlone(x.Separator?, Symbols(rest).value))
  {
    var all := Cons(x, Symbols(rest));
    if all.Some? {
      assert all.value[1..] == Symbols(rest).value;
    }
  }

  lemma AfterCmdline(s: string)
    requires StartsWith(s, "{cmdline@}")
    ensures s == "{cmdline@}" <==> s[10..] == ""
    ensures StartsWith(s, "{cmdline@} ") <==> s[10..] != "" && s[10..][0] == ' '
  {
    assert s == s[..10] + s[10..];
    if |s| > 10 {
      assert s[..11] == s[..10] + [s[10]];
      assert "{cmdline@} " == "{cmdline@}" + [' '];
    }
  }

  // ------------------------------------------------------------------------------------------
  // The parser
  // ------------------------------------------------------------------------------------------

  function RawText(arg: seq<Symbol>): string {
    if arg == [] then ""
    else RawText(arg[..|arg| - 1]) + RawSymbol(arg[|arg| - 1])
  }

  function RawSymbol(x: Symbol): string {
    match x
    case Literal(c) => [c]
    case Hole(p) => Text(p)
    case _ => ""
  }

  function RawTexts(args: seq<seq<Symbol>>): (r: seq<string>)
    ensures |r| == |args|
  {
    if args == [] then [] else RawTexts(args[..|args| - 1]) + [RawText(args[|args| - 1])]
  }

  datatype Found = Found(arg: nat, pos: nat)

  /** Where the placeholders of argument number `a` are in its text. */
  function PositionsIn(arg: seq<Symbol>, a: nat): seq<Found> {
    if arg == [] then []
    else
      var init := arg[..|arg| - 1];
      PositionsIn(init, a) + if arg[|arg| - 1].Hole? then [Found(a, |RawText(init)|)] else []
  }

  function Positions(args: seq<seq<Symbol>>): seq<Found> {
    if args == [] then []
    else Positions(args[..|args| - 1]) + PositionsIn(args[|args| - 1], |args| - 1)
  }

  predicate Visible(symbols: seq<Symbol>) {
    forall x <- symbols :: x.Literal? || x.Hole?
  }

  lemma AppendSymbol(arg: seq<Symbol>, x: Symbol, a: nat)
    ensures RawText(arg + [x]) == RawText(arg) + RawSymbol(x)
    ensures PositionsIn(arg + [x], a) == PositionsIn(arg, a) + if x.Hole? then [Found(a, |RawText(arg)|)] else []
  {
    assert (arg + [x])[..|arg|] == arg;
  }

  lemma AppendArgument(args: seq<seq<Symbol>>, arg: seq<Symbol>)
    ensures RawTexts(args + [arg]) == RawTexts(args) + [RawText(arg)]
    ensures Positions(args + [arg]) == Positions(args) + PositionsIn(arg, |args|)
  {
    assert (args + [arg])[..|args|] == args;
  }

  lemma RawTextIsEmpty(arg: seq<Symbol>)
    requires Visible(arg)
    ensures RawText(arg) == "" <==> arg == []
  {
    if arg != [] {
      assert arg[|arg| - 1] in arg;
    }
  }

  /** Index of the first closing brace from `i` on, or the length. */
  function ClosingBrace(s: string, i: nat): (j: nat)
    requires i <= |s|
    ensures i <= j <= |s| && (j < |s| ==> s[j] == '}')
    ensures forall k :: i <= k < j ==> s[k] != '}'
    decreases |s| - i
  {
    if i == |s| || s[i] == '}' then i else ClosingBrace(s, i + 1)
  }

  /** The parser's three accumulators. */
  datatype Parser = Parser(args: seq<string>, placeholders: seq<Found>, curr: string) {
    function Push(text: string): Parser {
      this.(curr := curr + text)
    }

    function Mark(): Parser {
      this.(placeholders := placeholders + [Found(|args|, |curr|)])
    }

    function Flush(): Parser {
      if curr == "" then this else Parser(args + [curr], placeholders, "")
    }

    function Read(x: Symbol): Parser {
      match x
      case Separator => Flush()
      case Trailing => this
      case Literal(c) => Push([c])
      case Hole(h) => Mark().Push(Text(h))
    }
  }

  /** What the parser does at position `i`, and where it goes on; None stands for abort. */
  function Consume(s: string, i: nat, p: Parser): (r: Option<(Parser, nat)>)
    requires i < |s|
    ensures r.Some? ==> i < r.value.1 <= |s|
  {
    if s[i] == '\\' then
      if i == |s| - 1 then Some((p, |s|))
      else if EscapableInTerm(s[i + 1]) then Some((p.Push([s[i + 1]]), i + 2))
      else None
    else if s[i] == ' ' then Some((p.Flush(), i + 1))
    else if s[i] == '{' then
      var j := ClosingBrace(s, i);
      if j == |s| then None else Some((p.Mark().Push(s[i..j + 1]), j + 1))
    else Some((p.Push([s[i]]), i + 1))
  }

  /** What the parser does from position `i` of any text on. */
  function ParseFrom(s: string, i: nat, p: Parser): Option<Parser>
    requires i <= |s|
    decreases |s| - i
  {
    if i == |s| then Some(p.Flush())
    else
      var next := Consume(s, i, p);
      if next.None? then None else ParseFrom(s, next.value.1, next.value.0)
  }

  function Parsed(p: Option<Parser>): Option<(seq<Found>, seq<string>)> {
    if p.None? then None else Some((p.value.placeholders, p.value.args))
  }

  /** `parse_escaped_term`; None stands for abort. */
  method ParseEscapedTerm(term: string) returns (r: Option<(seq<Found>, seq<string>)>)
    ensures r == Parsed(ParseFrom(term, 0, Parser([], [], "")))
  {
    var args: seq<string> := [];
    var placeholders: seq<Found> := [];
    var curr := "";
    var escaped := false;
    ghost var whole := ParseFrom(term, 0, Parser([], [], ""));
    var i := 0;
    while i < |term|
      invariant 0 <= i <= |term|
      invariant escaped ==> 0 < i && term[i - 1] == '\\'
      invariant ParseFrom(term, if escaped then i - 1 else i, Parser(args, placeholders, curr)) == whole
    {
      var ch := term[i];
      if escaped {
        if !EscapableInTerm(ch) {
          return None;
        }
        curr := curr + [ch];
        escaped := false;
      } else if ch == '\\' {
        escaped := true;
      } else if ch == ' ' {
        if curr != "" {
          args := args + [curr];
          curr := "";
        }
      } else if ch == '{' {
        placeholders := placeholders + [Found(|args|, |curr|)];
        var j := i;
        while j < |term| && term[j] != '}'
          invariant i <= j <= |term|
          invariant ClosingBrace(term, i) == ClosingBrace(term, j)
        {
          j := j + 1;
        }
        if j == |term| {
          return None;
        }
        curr := curr + term[i..j + 1];
        i := j;
      } else {
        curr := curr + [ch];
      }
      i := i + 1;
    }
    if curr != "" {
      args := args + [curr];
    }
    return Some((placeholders, args));
  }

  /** The parser in terms of symbols: the finished arguments and the current one. */
  function ParserAt(done: seq<seq<Symbol>>, curr: seq<Symbol>): Parser {
    Parser(RawTexts(done), Positions(done) + PositionsIn(curr, |done|), RawText(curr))
  }

  function Finished(done: seq<seq<Symbol>>, curr: seq<Symbol>): seq<seq<Symbol>> {
    if curr == [] then done else done + [curr]
  }

  lemma ParserReads(done: seq<seq<Symbol>>, curr: seq<Symbol>, x: Symbol)
    requires Visible(curr)
    ensures var (done', curr') := AfterSymbol(done, curr, x); ParserAt(done, curr).Read(x) == ParserAt(done', curr')
  {
    RawTextIsEmpty(curr);
    AppendArgument(done, curr);
    AppendSymbol(curr, x, |done|);
    var p := ParserAt(done, curr);
    assert p.placeholders + [] == p.placeholders && PositionsIn(curr, |done|) + [] == PositionsIn(curr, |done|);
    assert p.placeholders + [Found(|p.args|, |p.curr|)]
        == Positions(done) + (PositionsIn(curr, |done|) + [Found(|done|, |RawText(curr)|)]);
  }

  /** One step of the parser consumes one symbol of the grammar. */
  lemma ParserConsumes(s: string, i: nat, rest: string, p: Parser, x: Symbol, k: nat)
    requires i < |s| && rest == s[i..] && First(rest) == Some((x, k))
    ensures i + k <= |s| && rest[k..] == s[i + k..] && Consume(s, i, p) == Some((p.Read(x), i + k))
  {
    assert rest[0] == s[i] && (|rest| > 1 ==> rest[1] == s[i + 1]);
    assert rest[k..] == s[i + k..];
    if x.Hole? {
      PlaceholderText(rest);
      assert s[i..i + k] == rest[..k];
      assert forall j :: 0 <= j < k ==> s[i + j] == rest[..k][j];
      ClosingBraceIs(s, i, i + k - 1);
    }
  }

  lemma ClosingBraceIs(s: string, i: nat, j: nat)
    requires i <= j < |s| && s[j] == '}' && forall k :: i <= k < j ==> s[k] != '}'
    ensures ClosingBrace(s, i) == j
  {
  }

  /** The finished and the current argument after one more symbol. */
  function AfterSymbol(done: seq<seq<Symbol>>, curr: seq<Symbol>, x: Symbol): (seq<seq<Symbol>>, seq<Symbol>) {
    match x
    case Separator => (Finished(done, curr), [])
    case Trailing => (done, curr)
    case _ => (done, curr + [x])
  }

  lemma ArgumentsAfterSymbol(done: seq<seq<Symbol>>, curr: seq<Symbol>, x: Symbol, rest: seq<Symbol>)
    requires Visible(curr)
    ensures var (done', curr') := AfterSymbol(done, curr, x);
            done + Arguments(curr, [x] + rest) == done' + Arguments(curr', rest) && Visible(curr')
  {
    assert ([x] + rest)[1..] == rest;
    assert done + ((if curr == [] then [] else [curr]) + Arguments([], rest))
        == Finished(done, curr) + Arguments([], rest);
  }

  function ReadAll(p: Parser, symbols: seq<Symbol>): Parser
    decreases |symbols|
  {
    if symbols == [] then p.Flush() else ReadAll(p.Read(symbols[0]), symbols[1..])
  }

  /** On the template language the parser does not abort and reads the grammar's symbols; `rest` is the unread text. */
  lemma {:induction false} ParserReadsSymbols(s: string, i: nat, rest: string, p: Parser)
    requires i <= |s| && rest == s[i..] && Symbols(rest).Some?
    ensures ParseFrom(s, i, p) == Some(ReadAll(p, Symbols(rest).value))
    decreases |s| - i
  {
    if rest != "" {
      var (x, k) := First(rest).value;
      ParserConsumes(s, i, rest, p, x, k);
      ReadNext(rest, p, x, k);
      ParserReadsSymbols(s, i + k, rest[k..], p.Read(x));
    }
  }

  lemma ReadNext(s: string, p: Parser, x: Symbol, k: nat)
    requires s != "" && First(s) == Some((x, k)) && Symbols(s).Some?
    ensures Symbols(s[k..]).Some? && ReadAll(p, Symbols(s).value) == ReadAll(p.Read(x), Symbols(s[k..]).value)
  {
    var rest := Symbols(s[k..]).value;
    assert ([x] + rest)[1..] == rest;
  }

  /** Reading the grammar's symbols collects the grammar's arguments and placeholders. */
  lemma {:induction false} SymbolsMakeArguments(done: seq<seq<Symbol>>, curr: seq<Symbol>, symbols: seq<Symbol>)
    requires Visible(curr)
    ensures ReadAll(ParserAt(done, curr), symbols) == ParserAt(done + Arguments(curr, symbols), [])
    decreases |symbols|
  {
    if symbols == [] {
      ParserReads(done, curr, Separator);
      NoMoreArguments(done, curr);
    } else {
      var x, rest := symbols[0], symbols[1..];
      assert symbols == [x] + rest;
      ParserReads(done, curr, x);
      ArgumentsAfterSymbol(done, curr, x, rest);
      var (done', curr') := AfterSymbol(done, curr, x);
      SymbolsMakeArguments(done', curr', rest);
    }
  }

  lemma NoMoreArguments(done: seq<seq<Symbol>>, curr: seq<Symbol>)
    ensures done + Arguments(curr, []) == Finished(done, curr)
  {
  }

  /** Validator and parser agree, although only the parser jumps to the closing brace. */
  lemma ParserAgreesWithValidator(term: string)
    requires Symbols(term).Some?
    ensures ParseFrom(term, 0, Parser([], [], ""))
         == Some(Parser(RawTexts(Template(term)), Positions(Template(term)), ""))
  {
    assert term[0..] == term;
    assert ParserAt([], []) == Parser([], [], "");
    ParserReadsSymbols(term, 0, term, Parser([], [], ""));
    SymbolsMakeArguments([], [], Symbols(term).value);
    Neutral(Template(term));
    Neutral(Positions(Template(term)));
  }

  // ------------------------------------------------------------------------------------------
  // The expander
  // ------------------------------------------------------------------------------------------

  /** The arguments so far, and whether the temporary script has been created. */
  datatype Expansion = Expansion(args: seq<string>, scriptMade: bool)

  /** One round of the expansion loop; None stands for abort. */
  function Expand(e: Expansion, at: Found, env: Environment): Option<Expansion> {
    if at.arg >= |e.args| || at.pos > |e.args[at.arg]| then None
    else
      var arg := e.args[at.arg];
      var p := PlaceholderAt(arg[at.pos..]);
      if p.None? then None
      else if p.value == CmdlineArgs then
        Some(e.(args := e.args[..at.arg] + env.commandline + e.args[at.arg + 1..]))
      else
        var text := arg[..at.pos] + Replacement(p.value, env) + arg[at.pos + |Text(p.value)|..];
        Some(Expansion(e.args[at.arg := text], e.scriptMade || p.value == Script))
  }

  /** The rest of the loop, last position first. */
  function ExpandAll(e: Expansion, positions: seq<Found>, env: Environment): Option<Expansion>
    decreases |positions|
  {
    if positions == [] then Some(e)
    else
      var next := Expand(e, positions[|positions| - 1], env);
      if next.None? then None else ExpandAll(next.value, positions[..|positions| - 1], env)
  }

  /** The body of the expansion loop, editing one argument in place. */
  method ExpandOne(e: Expansion, at: Found, env: Environment) returns (r: Option<Expansion>)
    ensures r == Expand(e, at, env)
  {
    var Found(argPos, pos) := at;
    var args := e.args;
    if argPos >= |args| || pos > |args[argPos]| {
      return None;
    }
    var arg := args[argPos];
    var placeholder := arg[pos..];
    if StartsWith(placeholder, "{name}") {
      args := args[argPos := arg[..pos] + env.appName + arg[pos + |"{name}"|..]];
    } else if StartsWith(placeholder, "{cmdline@}") {
      args := args[..argPos] + args[argPos + 1..];
      args := args[..argPos] + env.commandline + args[argPos..];
    } else if StartsWith(placeholder, "{cmdline*}") {
      var cmdline := ConvertArgvToString(env.commandline);
      args := args[argPos := arg[..pos] + cmdline + arg[pos + |"{cmdline*}"|..]];
    } else if StartsWith(placeholder, "{script}") {
      return Some(Expansion(args[argPos := arg[..pos] + env.script + arg[pos + |"{script}"|..]], true));
    } else {
      return None;
    }
    return Some(Expansion(args, e.scriptMade));
  }

  /** `custom_term_assembler`; None stands for abort. */
  method CustomTermAssembler(terminal: string, env: Environment) returns (r: Option<Expansion>)
    ensures Accepted(terminal) ==>
              r == Some(Expansion(Substituted(Template(terminal), env), UsesScript(Template(terminal))))
    ensures terminal == "{cmdline@}" ==> r == Some(Expansion(env.commandline, false))
    ensures forall a, b | terminal == Between(a, "{name}", b) :: r == Some(Expansion([a + env.appName + b], false))
    ensures forall a, b | terminal == Between(a, "{script}", b) :: r == Some(Expansion([a + env.script + b], true))
    ensures forall a, b | terminal == Between(a, "{cmdline*}", b) ::
              r == Some(Expansion([a + ArgvString(env.commandline) + b], false))
  {
    AssembledMeaning(terminal, env);
    if Accepted(terminal) {
      AcceptedExpands(terminal, env);
    }
    var parsed := ParseEscapedTerm(terminal);
    if parsed.None? {
      return None;
    }
    var (placeholders, args) := parsed.value;
    var e := Expansion(args, false);
    ghost var whole := ExpandAll(e, placeholders, env);
    var k := |placeholders|;
    assert placeholders[..k] == placeholders;
    while k > 0
      invariant 0 <= k <= |placeholders|
      invariant ExpandAll(e, placeholders[..k], env) == whole
    {
      k := k - 1;
      LastPosition(e, placeholders, k, env);
      var next := ExpandOne(e, placeholders[k], env);
      if next.None? {
        return None;
      }
      e := next.value;
    }
    return Some(e);
  }

  /** The outcome that the placeholders' meanings require. */
  lemma AssembledMeaning(term: string, env: Environment)
    ensures term == "{cmdline@}" ==> Means(term, env, env.commandline, false)
    ensures forall a, b | term == Between(a, "{name}", b) :: Means(term, env, [a + env.appName + b], false)
    ensures forall a, b | term == Between(a, "{script}", b) :: Means(term, env, [a + env.script + b], true)
    ensures forall a, b | term == Between(a, "{cmdline*}", b) ::
              Means(term, env, [a + ArgvString(env.commandline) + b], false)
  {
    CommandLineMeans(env);
    forall a, b ensures Means(Between(a, "{name}", b), env, [a + env.appName + b], false)
      ensures Means(Between(a, "{script}", b), env, [a + env.script + b], true)
      ensures Means(Between(a, "{cmdline*}", b), env, [a + ArgvString(env.commandline) + b], false)
    {
      PlaceholdersMean(a, b, env);
    }
  }

  lemma LastPosition(e: Expansion, positions: seq<Found>, k: nat, env: Environment)
    requires k < |positions|
    ensures var next := Expand(e, positions[k], env);
            ExpandAll(e, positions[..k + 1], env)
            == if next.None? then None else ExpandAll(next.value, positions[..k], env)
  {
    assert positions[..k + 1][..k] == positions[..k];
  }

  /** Parsing and expanding an accepted template. */
  lemma AcceptedExpands(term: string, env: Environment)
    requires Accepted(term)
    ensures var p := ParseFrom(term, 0, Parser([], [], ""));
            && p.Some?
            && ExpandAll(Expansion(p.value.args, false), p.value.placeholders, env)
               == Some(Expansion(Substituted(Template(term), env), UsesScript(Template(term))))
  {
    ParserAgreesWithValidator(term);
    AcceptedSubstitutes(term, env);
  }

  predicate CmdlineStandsAlone(arg: seq<Symbol>) {
    arg == [Hole(CmdlineArgs)] || Hole(CmdlineArgs) !in arg
  }

  /** Every `{cmdline@}` of an accepted template is a whole argument. */
  lemma {:induction false} TemplateStandsAlone(curr: seq<Symbol>, symbols: seq<Symbol>, separated: bool)
    requires StandsAlone(separated, symbols)
    requires separated ==> curr == []
    requires CmdlineStandsAlone(curr)
    requires Hole(CmdlineArgs) in curr ==> symbols == [] || symbols[0].Separator?
    requires Visible(curr)
    ensures forall arg <- Arguments(curr, symbols) :: CmdlineStandsAlone(arg) && Visible(arg)
    decreases |symbols|
  {
    if symbols != [] {
      var x := symbols[0];
      match x
      case Separator => TemplateStandsAlone([], symbols[1..], true);
      case Trailing => TemplateStandsAlone(curr, symbols[1..], false);
      case _ => TemplateStandsAlone(curr + [x], symbols[1..], false);
    }
  }

  lemma PlaceholderRecognized(p: Placeholder, tail: string)
    ensures PlaceholderAt(Text(p) + tail) == Some(p)
  {
    var s := Text(p) + tail;
    assert s[..|Text(p)|] == Text(p);
    match p
    case Name =>
    case CmdlineArgs =>
      assert s[1] == 'c';
    case CmdlineString =>
      assert s[1] == 'c' && s[8] == '*';
    case Script =>
      assert s[1] == 's';
  }

  lemma AppendFilled(arg: seq<Symbol>, x: Symbol, env: Environment)
    ensures Filled(arg + [x], env) == Filled(arg, env) + FilledSymbol(x, env)
  {
    assert (arg + [x])[..|arg|] == arg;
  }

  /** An argument in the middle of the argument list. */
  function Around(pre: seq<string>, arg: string, post: seq<string>): seq<string> {
    pre + [arg] + post
  }

  /** Expanding the placeholders of `left` inside an argument that goes on with `tail`. */
  lemma {:induction false} ArgumentFills(pre: seq<string>, left: seq<Symbol>, tail: string, post: seq<string>,
                                         made: bool, positions: seq<Found>, env: Environment)
    requires Hole(CmdlineArgs) !in left && Visible(left)
    ensures ExpandAll(Expansion(Around(pre, RawText(left) + tail, post), made),
                      positions + PositionsIn(left, |pre|), env)
         == ExpandAll(Expansion(Around(pre, Filled(left, env) + tail, post), made || Hole(Script) in left),
                      positions, env)
  {
    if left == [] {
      assert positions + [] == positions;
    } else {
      var init, last := left[..|left| - 1], left[|left| - 1];
      assert left == init + [last] && last in left && forall x <- init :: x in left;
      LastSymbol(init, last, tail, |pre|, env);
      if last.Literal? {
        ArgumentFills(pre, init, [last.c] + tail, post, made, positions, env);
      } else {
        HoleFills(pre, init, last.p, tail, post, made, positions, env);
        ArgumentFills(pre, init, Replacement(last.p, env) + tail, post, made || last.p == Script, positions, env);
      }
    }
  }

  lemma LastSymbol(init: seq<Symbol>, x: Symbol, tail: string, a: nat, env: Environment)
    requires x.Literal? || x.Hole?
    ensures RawText(init + [x]) + tail == if x.Literal? then RawText(init) + ([x.c] + tail)
                                          else RawText(init) + Text(x.p) + tail
    ensures Filled(init + [x], env) + tail
         == Filled(init, env) + ((if x.Literal? then [x.c] else Replacement(x.p, env)) + tail)
    ensures PositionsIn(init + [x], a)
         == if x.Literal? then PositionsIn(init, a) else PositionsIn(init, a) + [Found(a, |RawText(init)|)]
    ensures Hole(Script) in init + [x] <==> Hole(Script) in init || x == Hole(Script)
  {
    AppendSymbol(init, x, a);
    AppendFilled(init, x, env);
    Assoc(RawText(init), RawSymbol(x), tail);
    Assoc(Filled(init, env), FilledSymbol(x, env), tail);
    Neutral(PositionsIn(init, a));
  }

  lemma HoleFills(pre: seq<string>, init: seq<Symbol>, p: Placeholder, tail: string, post: seq<string>,
                  made: bool, positions: seq<Found>, env: Environment)
    requires p != CmdlineArgs
    ensures ExpandAll(Expansion(Around(pre, RawText(init) + Text(p) + tail, post), made),
                      positions + (PositionsIn(init, |pre|) + [Found(|pre|, |RawText(init)|)]), env)
         == ExpandAll(Expansion(Around(pre, RawText(init) + (Replacement(p, env) + tail), post), made || p == Script),
                      positions + PositionsIn(init, |pre|), env)
  {
    var at := Found(|pre|, |RawText(init)|);
    var todo := positions + PositionsIn(init, |pre|);
    Assoc(positions, PositionsIn(init, |pre|), [at]);
    SplitConcat(todo, [at]);
    Assoc(RawText(init), Replacement(p, env), tail);
    HoleExpands(RawText(init), p, tail, env);
    var raw, filled := RawText(init) + Text(p) + tail, RawText(init) + Replacement(p, env) + tail;
    assert Around(pre, raw, post)[at.arg] == raw;
    assert Around(pre, raw, post)[at.arg := filled] == Around(pre, filled, post);
  }

  /** Replacing a placeholder between two texts. */
  lemma HoleExpands(text: string, p: Placeholder, tail: string, env: Environment)
    ensures var raw := text + Text(p) + tail;
            && PlaceholderAt(raw[|text|..]) == Some(p)
            && |raw| >= |text| + |Text(p)|
            && raw[..|text|] + Replacement(p, env) + raw[|text| + |Text(p)|..] == text + Replacement(p, env) + tail
  {
    PlaceholderRecognized(p, tail);
    Assoc(text, Text(p), tail);
    SplitConcat(text, Text(p) + tail);
    SplitConcat(text + Text(p), tail);
  }

  /** A `{cmdline@}` is replaced by the whole command line. */
  lemma CommandLineSplices(pre: seq<string>, post: seq<string>, made: bool, positions: seq<Found>, env: Environment)
    ensures ExpandAll(Expansion(Around(pre, "{cmdline@}", post), made), positions + [Found(|pre|, 0)], env)
         == ExpandAll(Expansion(pre + (env.commandline + post), made), positions, env)
  {
    var at := Found(|pre|, 0);
    var e := Expansion(Around(pre, "{cmdline@}", post), made);
    PlaceholderRecognized(CmdlineArgs, "");
    assert Text(CmdlineArgs) + "" == "{cmdline@}";
    assert e.args[at.arg] == "{cmdline@}" && e.args[at.arg][at.pos..] == "{cmdline@}";
    SplitConcat(positions, [at]);
    assert e.args[..at.arg] + env.commandline + e.args[at.arg + 1..] == pre + (env.commandline + post);
  }

  /** The whole reverse loop is simultaneous substitution; `post` is what has been expanded already. */
  lemma {:induction false} ExpansionSubstitutes(args: seq<seq<Symbol>>, post: seq<string>, made: bool, env: Environment)
    requires forall arg <- args :: CmdlineStandsAlone(arg) && Visible(arg)
    ensures ExpandAll(Expansion(RawTexts(args) + post, made), Positions(args), env)
         == Some(Expansion(Substituted(args, env) + post, made || UsesScript(args)))
  {
    if args != [] {
      var init, last := args[..|args| - 1], args[|args| - 1];
      assert args == init + [last] && last in args && forall arg <- init :: arg in args;
      UsesScriptSomewhere(init, last);
      LastArgumentExpands(RawTexts(init), last, post, made, Positions(init), env);
      ExpansionSubstitutes(init, FilledArgument(last, env) + post, made || Hole(Script) in last, env);
      Assoc(Substituted(init, env), FilledArgument(last, env), post);
    }
  }

  lemma UsesScriptSomewhere(init: seq<seq<Symbol>>, last: seq<Symbol>)
    ensures UsesScript(init + [last]) <==> UsesScript(init) || Hole(Script) in last
  {
    assert forall arg :: arg in init + [last] <==> arg in init || arg == last;
  }

  lemma LastArgumentExpands(pre: seq<string>, last: seq<Symbol>, post: seq<string>, made: bool, positions: seq<Found>,
                            env: Environment)
    requires CmdlineStandsAlone(last) && Visible(last)
    ensures ExpandAll(Expansion(Around(pre, RawText(last), post), made), positions + PositionsIn(last, |pre|), env)
         == ExpandAll(Expansion(pre + (FilledArgument(last, env) + post), made || Hole(Script) in last), positions, env)
  {
    if last == [Hole(CmdlineArgs)] {
      AppendSymbol([], Hole(CmdlineArgs), |pre|);
      Neutral(last);
      Neutral("{cmdline@}");
      Neutral([Found(|pre|, 0)]);
      CommandLineSplices(pre, post, made, positions, env);
    } else {
      Neutral(RawText(last));
      Neutral(Filled(last, env));
      ArgumentFills(pre, last, "", post, made, positions, env);
      Assoc(pre, [Filled(last, env)], post);
    }
  }

  lemma AcceptedSubstitutes(term: string, env: Environment)
    requires Accepted(term)
    ensures ExpandAll(Expansion(RawTexts(Template(term)), false), Positions(Template(term)), env)
         == Some(Expansion(Substituted(Template(term), env), UsesScript(Template(term))))
  {
    var args := Template(term);
    TemplateStandsAlone([], Symbols(term).value, true);
    ExpansionSubstitutes(args, [], false, env);
    Neutral(RawTexts(args));
    Neutral(Substituted(args, env));
  }

  // ------------------------------------------------------------------------------------------
  // Writing templates
  // ------------------------------------------------------------------------------------------

  function Literals(word: string): seq<Symbol> {
    if word == "" then [] else [Literal(word[0])] + Literals(word[1..])
  }

  /** A backslash in front of the three characters that mean something. */
  function EscapedText(word: string): string {
    if word == "" then ""
    else (if word[0] == '\\' || word[0] == '{' || word[0] == ' ' then ['\\', word[0]] else [word[0]])
         + EscapedText(word[1..])
  }

  function Written(x: Symbol): string
    requires x.Literal? || x.Hole?
  {
    if x.Hole? then Text(x.p) else EscapedText([x.c])
  }

  function WrittenArgument(arg: seq<Symbol>): string
    requires Visible(arg)
  {
    if arg == [] then "" else Written(arg[0]) + WrittenArgument(arg[1..])
  }

  /** The arguments of a template, separated by single spaces. */
  function WrittenTemplate(args: seq<seq<Symbol>>): string
    requires forall arg <- args :: Visible(arg)
  {
    if args == [] then ""
    else if |args| == 1 then WrittenArgument(args[0])
    else WrittenArgument(args[0]) + (" " + WrittenTemplate(args[1..]))
  }

  function Separated(args: seq<seq<Symbol>>): seq<Symbol> {
    if args == [] then [] else if |args| == 1 then args[0] else args[0] + ([Separator] + Separated(args[1..]))
  }

  function After(arg: seq<Symbol>, rest: Option<seq<Symbol>>): Option<seq<Symbol>> {
    if rest.None? then None else Some(arg + rest.value)
  }

  lemma SymbolReads(x: Symbol, rest: string)
    requires x.Literal? || x.Hole?
    ensures Symbols(Written(x) + rest) == Cons(x, Symbols(rest))
  {
    var s := Written(x) + rest;
    if x.Hole? {
      PlaceholderRecognized(x.p, rest);
      SplitConcat(Text(x.p), rest);
    } else {
      assert [x.c][1..] == "";
      var escaped := if x.c == '\\' || x.c == '{' || x.c == ' ' then ['\\', x.c] else [x.c];
      Neutral(escaped);
      assert EscapedText([x.c]) == escaped + EscapedText([x.c][1..]);
      SplitConcat(escaped, rest);
      assert s == escaped + rest;
      assert s[0] == escaped[0] && |s| > |escaped| - 1;
    }
  }

  lemma {:induction false} ArgumentReads(arg: seq<Symbol>, rest: string)
    requires Visible(arg)
    ensures Symbols(WrittenArgument(arg) + rest) == After(arg, Symbols(rest))
  {
    if arg == [] {
      Neutral(rest);
      if Symbols(rest).Some? {
        Neutral(Symbols(rest).value);
      }
    } else {
      var x, more := arg[0], arg[1..];
      assert x in arg && forall y <- more :: y in arg;
      ArgumentReads(more, rest);
      SymbolReads(x, WrittenArgument(more) + rest);
      Assoc(Written(x), WrittenArgument(more), rest);
      if Symbols(rest).Some? {
        Assoc([x], more, Symbols(rest).value);
        assert [x] + more == arg;
      }
    }
  }

  lemma SpaceReads(rest: string)
    ensures Symbols(" " + rest) == Cons(Separator, Symbols(rest))
  {
    SplitConcat(" ", rest);
    var s := " " + rest;
    assert s[0] == ' ' && First(s) == Some((Separator, 1));
  }

  lemma {:induction false} TemplateReads(args: seq<seq<Symbol>>)
    requires forall arg <- args :: Visible(arg)
    ensures Symbols(WrittenTemplate(args)) == Some(Separated(args))
  {
    if |args| == 1 {
      assert args[0] in args;
      ArgumentReads(args[0], "");
      Neutral(WrittenArgument(args[0]));
      Neutral(args[0]);
    } else if |args| > 1 {
      assert args[0] in args && forall arg <- args[1..] :: arg in args;
      TemplateReads(args[1..]);
      SpaceReads(WrittenTemplate(args[1..]));
      ArgumentReads(args[0], " " + WrittenTemplate(args[1..]));
    }
  }

  lemma {:induction false} ArgumentCollects(curr: seq<Symbol>, arg: seq<Symbol>, rest: seq<Symbol>)
    requires Visible(arg)
    ensures Arguments(curr, arg + rest) == Arguments(curr + arg, rest)
    decreases |arg|
  {
    if arg == [] {
      Neutral(rest);
      Neutral(curr);
    } else {
      var x, more := arg[0], arg[1..];
      assert x in arg && forall y <- more :: y in arg;
      assert arg == [x] + more && (arg + rest)[1..] == more + rest;
      ArgumentCollects(curr + [x], more, rest);
      Assoc(curr, [x], more);
    }
  }

  lemma {:induction false} ArgumentMayStand(separated: bool, arg: seq<Symbol>, rest: seq<Symbol>)
    requires Visible(arg) && arg != [] && CmdlineStandsAlone(arg)
    requires arg == [Hole(CmdlineArgs)] ==> separated
    requires rest == [] || (rest[0].Separator? && StandsAlone(true, rest[1..]))
    ensures StandsAlone(separated, arg + rest)
    decreases |arg|
  {
    var x, more := arg[0], arg[1..];
    assert x in arg && forall y <- more :: y in arg;
    assert arg == [x] + more && (arg + rest)[1..] == more + rest;
    if more == [] {
      Neutral(rest);
      assert rest != [] ==> StandsAlone(false, rest);
    } else {
      ArgumentMayStand(false, more, rest);
    }
  }

  lemma {:induction false} ArgumentsSeparate(args: seq<seq<Symbol>>)
    requires forall arg <- args :: arg != [] && Visible(arg) && CmdlineStandsAlone(arg)
    ensures Arguments([], Separated(args)) == args && StandsAlone(true, Separated(args))
  {
    if args != [] {
      var arg, more := args[0], args[1..];
      assert arg in args && forall x <- more :: x in args;
      assert args == [arg] + more;
      ArgumentsSeparate(more);
      var rest := if more == [] then [] else [Separator] + Separated(more);
      Neutral(arg);
      assert Separated(args) == arg + rest;
      assert rest != [] ==> rest[1..] == Separated(more);
      ArgumentCollects([], arg, rest);
      ArgumentMayStand(true, arg, rest);
    }
  }

  /** Every list of arguments with text and placeholders can be written, is accepted, and is read back as itself. */
  lemma WrittenTemplateReadsBack(args: seq<seq<Symbol>>)
    requires args != [] && forall arg <- args :: arg != [] && Visible(arg) && CmdlineStandsAlone(arg)
    ensures Accepted(WrittenTemplate(args)) && Template(WrittenTemplate(args)) == args
  {
    assert args[0] in args;
    TemplateReads(args);
    ArgumentsSeparate(args);
  }

  /** Several separators are as good as one, and those in front of the first argument do not count. */
  lemma SeparatorsCollapse(curr: seq<Symbol>, rest: seq<Symbol>)
    ensures Arguments(curr, [Separator, Separator] + rest) == Arguments(curr, [Separator] + rest)
    ensures Arguments([], [Separator] + rest) == Arguments([], rest)
  {
    assert ([Separator] + rest)[1..] == rest;
    assert ([Separator, Separator] + rest)[1..] == [Separator] + rest;
    Neutral(Arguments([], rest));
  }

  /** An escape of any other character is refused. */
  lemma OtherEscapesAreRefused(before: seq<Symbol>, c: char, rest: string)
    requires Visible(before) && c != '\\' && c != '{' && c != ' '
    ensures !Accepted(WrittenArgument(before) + (['\\', c] + rest))
  {
    ArgumentReads(before, ['\\', c] + rest);
  }

  /** So is any other text in braces. */
  lemma OtherPlaceholdersAreRefused(before: seq<Symbol>, rest: string)
    requires Visible(before) && rest != "" && rest[0] == '{'
    requires !StartsWith(rest, "{name}") && !StartsWith(rest, "{script}")
    requires !StartsWith(rest, "{cmdline@}") && !StartsWith(rest, "{cmdline*}")
    ensures !Accepted(WrittenArgument(before) + rest)
  {
    ArgumentReads(before, rest);
  }

  // ------------------------------------------------------------------------------------------
  // What each placeholder means
  // ------------------------------------------------------------------------------------------

  lemma {:induction false} FilledConcat(a: seq<Symbol>, b: seq<Symbol>, env: Environment)
    ensures Filled(a + b, env) == Filled(a, env) + Filled(b, env)
  {
    if b == [] {
      Neutral(a);
      Neutral(Filled(a, env));
    } else {
      var init, last := b[..|b| - 1], b[|b| - 1];
      assert a + b == a + init + [last];
      FilledConcat(a, init, env);
      AppendFilled(a + init, last, env);
      Assoc(Filled(a, env), Filled(init, env), FilledSymbol(last, env));
    }
  }

  lemma {:induction false} LiteralsStand(word: string, env: Environment)
    ensures Visible(Literals(word)) && WrittenArgument(Literals(word)) == EscapedText(word)
    ensures Filled(Literals(word), env) == word && forall x <- Literals(word) :: x.Literal?
  {
    if word != "" {
      var x, more := Literal(word[0]), Literals(word[1..]);
      LiteralsStand(word[1..], env);
      assert Literals(word)[1..] == more && [word[0]][1..] == "";
      FilledConcat([x], more, env);
      AppendFilled([], x, env);
      Neutral([x]);
      assert EscapedText([word[0]]) + EscapedText(word[1..]) == EscapedText(word);
    }
  }

  lemma WrittenFirst(x: Symbol, more: seq<Symbol>)
    requires Visible([x] + more) && Visible(more)
    ensures WrittenArgument([x] + more) == Written(x) + WrittenArgument(more)
  {
    SplitConcat([x], more);
  }

  lemma VisibleConcat(a: seq<Symbol>, b: seq<Symbol>)
    ensures Visible(a + b) <==> Visible(a) && Visible(b)
  {
    assert forall x :: x in a + b <==> x in a || x in b;
  }

  lemma {:induction false} WrittenConcat(a: seq<Symbol>, b: seq<Symbol>)
    requires Visible(a) && Visible(b)
    ensures Visible(a + b) && WrittenArgument(a + b) == WrittenArgument(a) + WrittenArgument(b)
  {
    VisibleConcat(a, b);
    if a == [] {
      Neutral(b);
      Neutral(WrittenArgument(b));
    } else {
      var x, more := a[0], a[1..];
      assert a == [x] + more;
      VisibleConcat([x], more);
      WrittenConcat(more, b);
      VisibleConcat(more, b);
      VisibleConcat([x], more + b);
      Assoc([x], more, b);
      WrittenFirst(x, more);
      WrittenFirst(x, more + b);
      Assoc(Written(x), WrittenArgument(more), WrittenArgument(b));
    }
  }

  /** Text around one placeholder. */
  function Between(before: string, hole: string, after: string): string {
    EscapedText(before) + hole + EscapedText(after)
  }

  function AroundHole(before: string, p: Placeholder, after: string): seq<Symbol> {
    Literals(before) + [Hole(p)] + Literals(after)
  }

  lemma AroundHoleIsWritten(before: string, p: Placeholder, after: string, env: Environment)
    ensures Visible(AroundHole(before, p, after))
    ensures WrittenArgument(AroundHole(before, p, after)) == Between(before, Text(p), after)
  {
    var a, hole, b := Literals(before), [Hole(p)], Literals(after);
    LiteralsStand(before, env);
    LiteralsStand(after, env);
    Neutral(Text(p));
    assert WrittenArgument(hole) == Text(p);
    WrittenConcat(a, hole);
    WrittenConcat(a + hole, b);
  }

  lemma AroundHoleIsFilled(before: string, p: Placeholder, after: string, env: Environment)
    ensures Filled(AroundHole(before, p, after), env) == before + Replacement(p, env) + after
  {
    var a, hole, b := Literals(before), Hole(p), Literals(after);
    LiteralsStand(before, env);
    LiteralsStand(after, env);
    FilledConcat(a + [hole], b, env);
    AppendFilled(a, hole, env);
  }

  lemma HolesAround(before: string, p: Placeholder, after: string, env: Environment)
    ensures forall q :: Hole(q) in AroundHole(before, p, after) <==> q == p
  {
    LiteralsStand(before, env);
    LiteralsStand(after, env);
    assert forall q :: Hole(q) !in Literals(before) && Hole(q) !in Literals(after);
  }

  lemma OnePlaceholder(before: string, p: Placeholder, after: string, env: Environment)
    requires p != CmdlineArgs
    ensures Means(Between(before, Text(p), after), env, [before + Replacement(p, env) + after], p == Script)
  {
    var arg := AroundHole(before, p, after);
    AroundHoleIsWritten(before, p, after, env);
    AroundHoleIsFilled(before, p, after, env);
    HolesAround(before, p, after, env);
    WrittenTemplateReadsBack([arg]);
    OneArgument(arg, env);
  }

  /** An accepted template that is one argument around `{name}`, `{script}` or `{cmdline*}`. */
  lemma PlaceholdersMean(before: string, after: string, env: Environment)
    ensures Means(Between(before, "{name}", after), env, [before + env.appName + after], false)
    ensures Means(Between(before, "{script}", after), env, [before + env.script + after], true)
    ensures Means(Between(before, "{cmdline*}", after), env, [before + ArgvString(env.commandline) + after], false)
  {
    OnePlaceholder(before, Name, after, env);
    OnePlaceholder(before, Script, after, env);
    OnePlaceholder(before, CmdlineString, after, env);
  }

  /** The whole command line takes the place of an argument `{cmdline@}`. */
  lemma CommandLineMeans(env: Environment)
    ensures Means("{cmdline@}", env, env.commandline, false)
  {
    var arg := [Hole(CmdlineArgs)];
    WrittenTemplateReadsBack([arg]);
    Neutral("{cmdline@}");
    assert WrittenArgument(arg) == "{cmdline@}";
    OneArgument(arg, env);
  }

  ghost predicate Means(term: string, env: Environment, args: seq<string>, script: bool) {
    && Accepted(term)
    && Substituted(Template(term), env) == args && (UsesScript(Template(term)) <==> script)
  }

  lemma OneArgument(arg: seq<Symbol>, env: Environment)
    ensures Substituted([arg], env) == FilledArgument(arg, env)
    ensures UsesScript([arg]) <==> Hole(Script) in arg
  {
    Neutral(FilledArgument(arg, env));
    assert [arg][..0] == [] && arg in [arg];
  }

  /** Arguments do not influence each other. */
  lemma {:induction false} SubstitutedConcat(a: seq<seq<Symbol>>, b: seq<seq<Symbol>>, env: Environment)
    ensures Substituted(a + b, env) == Substituted(a, env) + Substituted(b, env)
  {
    if b == [] {
      Neutral(a);
      Neutral(Substituted(a, env));
    } else {
      var init, last := b[..|b| - 1], b[|b| - 1];
      assert a + b == a + init + [last];
      assert (a + init + [last])[..|a + init|] == a + init;
      SubstitutedConcat(a, init, env);
      Assoc(Substituted(a, env), Substituted(init, env), FilledArgument(last, env));
    }
  }

  // ------------------------------------------------------------------------------------------
  // The debug check on the positions
  // ------------------------------------------------------------------------------------------

  predicate Before(a: Found, b: Found) {
    a.arg < b.arg || (a.arg == b.arg && a.pos < b.pos)
  }

  ghost predicate Increasing(positions: seq<Found>) {
    forall i, j :: 0 <= i < j < |positions| ==> Before(positions[i], positions[j])
  }

  predicate PointsAtPlaceholder(text: string, pos: nat) {
    pos < |text| && PlaceholderAt(text[pos..]).Some?
  }

  lemma StillPoints(text: string, pos: nat, more: string)
    requires PointsAtPlaceholder(text, pos)
    ensures PointsAtPlaceholder(text + more, pos)
  {
    var seen := text[pos..];
    PlaceholderText(seen);
    var p := PlaceholderAt(seen).value;
    var rest := seen[|Text(p)|..] + more;
    PlaceholderRecognized(p, rest);
    assert seen == Text(p) + seen[|Text(p)|..];
    assert (text + more)[pos..] == Text(p) + rest;
  }

  lemma {:induction false} PositionsInIncrease(arg: seq<Symbol>, a: nat)
    requires Visible(arg)
    ensures Increasing(PositionsIn(arg, a))
    ensures forall f <- PositionsIn(arg, a) :: f.arg == a && PointsAtPlaceholder(RawText(arg), f.pos)
  {
    if arg != [] {
      var init, last := arg[..|arg| - 1], arg[|arg| - 1];
      assert last in arg && forall x <- init :: x in arg;
      PositionsInIncrease(init, a);
      var text := RawText(init);
      forall f <- PositionsIn(init, a) ensures PointsAtPlaceholder(RawText(arg), f.pos) {
        StillPoints(text, f.pos, RawSymbol(last));
      }
      if last.Hole? {
        PlaceholderRecognized(last.p, "");
        assert Text(last.p) + "" == Text(last.p);
        assert RawText(arg)[|text|..] == Text(last.p);
      }
      var before := PositionsIn(init, a);
      assert forall i :: 0 <= i < |before| ==> before[i] in before;
    }
  }

  /** The recorded positions are strictly increasing and each points at a placeholder in its argument. */
  lemma {:induction false} PositionsIncrease(args: seq<seq<Symbol>>)
    requires forall arg <- args :: Visible(arg)
    ensures Increasing(Positions(args))
    ensures forall f <- Positions(args) ::
              f.arg < |args| && PointsAtPlaceholder(RawTexts(args)[f.arg], f.pos)
  {
    if args != [] {
      var n := |args| - 1;
      assert args[n] in args && forall arg <- args[..n] :: arg in args;
      PositionsIncrease(args[..n]);
      PositionsInIncrease(args[n], n);
      var texts := RawTexts(args[..n]);
      assert RawTexts(args) == texts + [RawText(args[n])];
      IncreasingConcat(Positions(args[..n]), PositionsIn(args[n], n), n);
    }
  }

  lemma IncreasingConcat(before: seq<Found>, last: seq<Found>, n: nat)
    requires Increasing(before) && Increasing(last)
    requires (forall f <- before :: f.arg < n) && (forall f <- last :: f.arg == n)
    ensures Increasing(before + last)
  {
    assert forall i :: 0 <= i < |before| ==> before[i] in before;
    assert forall i :: 0 <= i < |last| ==> last[i] in last;
  }

  /** The command line spliced by `{cmdline*}` alone is safe to pass to a shell: it splits into the command line. */
  lemma CommandStringIsSafe(env: Environment)
    ensures ShellTokens(Filled([Hole(CmdlineString)], env)) == Some(Words(env.commandline))
  {
    ShellReadsBackArgv(env.commandline);
    AppendFilled([], Hole(CmdlineString), env);
    assert [] + [Hole(CmdlineString)] == [Hole(CmdlineString)];
    assert "" + ArgvString(env.commandline) == ArgvString(env.commandline);
  }
}
