/**
 src/CMDLineTerm.cc, debug builds: `parse_escaped_term` looks for `{cmdline@}` in the text of the finished
 arguments, where an escaped brace can no longer be told from a placeholder.
 */
module CMDLineTermDebug {
  import opened Utilities
  import opened CMDLineTerm

  const CMDLINE := "{cmdline@}"

  predicate OccursAt(text: string, pos: nat) {
    pos + 10 <= |text| && forall i {:trigger CMDLINE[i]} :: 0 <= i < 10 ==> text[pos + i] == CMDLINE[i]
  }

  lemma OccursWhereItStarts(text: string, pos: nat)
    requires pos <= |text|
    ensures OccursAt(text, pos) <==> StartsWith(text[pos..], CMDLINE)
  {
    var rest := text[pos..];
    assert |CMDLINE| == 10;
    if OccursAt(text, pos) {
      forall i | 0 <= i < 10 ensures rest[..10][i] == CMDLINE[i] {
      }
    }
    if StartsWith(rest, CMDLINE) {
      forall i | 0 <= i < 10 ensures text[pos + i] == CMDLINE[i] {
        assert rest[..10][i] == CMDLINE[i];
      }
    }
  }

  /** `arg.find("{cmdline@}")`, the length standing for `npos`. */
  method FindCmdline(text: string) returns (pos: nat)
    ensures pos <= |text| && forall i :: 0 <= i < pos ==> !OccursAt(text, i)
    ensures pos < |text| ==> OccursAt(text, pos)
  {
    pos := 0;
    while pos < |text|
      invariant pos <= |text| && forall i :: 0 <= i < pos ==> !OccursAt(text, i)
    {
      OccursWhereItStarts(text, pos);
      if StartsWith(text[pos..], CMDLINE) {
        return;
      }
      pos := pos + 1;
    }
  }

  ghost predicate FirstOccurrence(text: string, pos: nat) {
    OccursAt(text, pos) && forall i :: 0 <= i < pos ==> !OccursAt(text, i)
  }

  /** The first occurrence is the whole argument or follows a backslash. */
  ghost predicate Passes(text: string) {
    forall pos: nat | FirstOccurrence(text, pos) :: if pos == 0 then |text| == 10 else text[pos - 1] == '\\'
  }

  lemma FirstDecides(text: string, pos: nat)
    requires FirstOccurrence(text, pos)
    ensures Passes(text) <==> if pos == 0 then |text| == 10 else text[pos - 1] == '\\'
  {
    forall other: nat | FirstOccurrence(text, other) ensures other == pos {
    }
  }

  /** The check; false stands for abort. */
  method CheckStandalone(args: seq<string>) returns (ok: bool)
    ensures ok <==> forall arg <- args :: Passes(arg)
  {
    for i := 0 to |args|
      invariant forall arg <- args[..i] :: Passes(arg)
    {
      var arg := args[i];
      var where := FindCmdline(arg);
      if where != |arg| {
        FirstDecides(arg, where);
        if where == 0 || arg[where - 1] != '\\' {
          if where != 0 || |arg| != |CMDLINE| {
            assert arg in args;
            return false;
          }
        }
      }
      assert Passes(arg);
      assert args[..i + 1] == args[..i] + [arg];
    }
    assert args[..|args|] == args;
    return true;
  }

  // ------------------------------------------------------------------------------------------
  // In terms of the template
  // ------------------------------------------------------------------------------------------

  /** The argument spells out the placeholder's text, which takes an escaped brace. */
  predicate SpelledAt(arg: seq<Symbol>, k: nat) {
    k + 10 <= |arg| && forall i {:trigger CMDLINE[i]} :: 0 <= i < 10 ==> arg[k + i] == Literal(CMDLINE[i])
  }

  ghost predicate FirstSpelled(arg: seq<Symbol>, k: nat) {
    SpelledAt(arg, k) && forall j :: 0 <= j < k ==> !SpelledAt(arg, j)
  }

  /** The first such text is the whole argument or follows an escaped backslash. */
  ghost predicate SpellsHarmlessly(arg: seq<Symbol>) {
    forall k: nat | FirstSpelled(arg, k) :: if k == 0 then |arg| == 10 else arg[k - 1] == Literal('\\')
  }

  // ---- where the symbols are in the text ----------------------------------------------------

  /** The symbol takes up the text between two positions. */
  predicate TakesUp(text: string, x: Symbol, from: nat, to: nat) {
    && from < to <= |text|
    && (if x.Literal? then to == from + 1 && text[from] == x.c
        else x.Hole? && HoleAt(text, x.p, from, to))
  }

  predicate HoleAt(text: string, p: Placeholder, from: nat, to: nat) {
    from <= to <= |text| && text[from..to] == Text(p)
  }

  ghost predicate LaidOut(text: string, arg: seq<Symbol>, offsets: seq<nat>) {
    && |offsets| == |arg| + 1 && offsets[0] == 0 && offsets[|arg|] == |text|
    && forall k: nat {:trigger SymbolIn(text, arg, offsets, k)} :: k < |arg| ==> SymbolIn(text, arg, offsets, k)
  }

  predicate SymbolIn(text: string, arg: seq<Symbol>, offsets: seq<nat>, k: nat) {
    k < |arg| && k + 1 < |offsets| && TakesUp(text, arg[k], offsets[k], offsets[k + 1])
  }

  function Offsets(arg: seq<Symbol>): seq<nat> {
    if arg == [] then [0] else Offsets(arg[..|arg| - 1]) + [|RawText(arg)|]
  }

  lemma TakesUpStill(text: string, more: string, x: Symbol, from: nat, to: nat)
    requires TakesUp(text, x, from, to)
    ensures TakesUp(text + more, x, from, to)
  {
    assert (text + more)[from..to] == text[from..to];
  }

  lemma LastTakesUp(text: string, x: Symbol)
    requires x.Literal? || x.Hole?
    ensures TakesUp(text + RawSymbol(x), x, |text|, |text + RawSymbol(x)|)
  {
    SplitConcat(text, RawSymbol(x));
  }

  lemma {:induction false} ArgumentIsLaidOut(arg: seq<Symbol>)
    requires Visible(arg)
    ensures LaidOut(RawText(arg), arg, Offsets(arg))
  {
    if arg != [] {
      var init, x := arg[..|arg| - 1], arg[|arg| - 1];
      assert x in arg && forall y <- init :: y in arg;
      ArgumentIsLaidOut(init);
      LayoutGrows(RawText(init), init, Offsets(init), x);
      assert arg == init + [x];
    }
  }

  lemma LayoutGrows(text: string, init: seq<Symbol>, offsets: seq<nat>, x: Symbol)
    requires LaidOut(text, init, offsets) && (x.Literal? || x.Hole?)
    ensures LaidOut(text + RawSymbol(x), init + [x], offsets + [|text + RawSymbol(x)|])
  {
    var arg, text', offsets' := init + [x], text + RawSymbol(x), offsets + [|text + RawSymbol(x)|];
    forall k: nat | k < |arg| ensures SymbolIn(text', arg, offsets', k) {
      if k < |init| {
        assert SymbolIn(text, init, offsets, k);
        TakesUpStill(text, RawSymbol(x), init[k], offsets[k], offsets[k + 1]);
      } else {
        LastTakesUp(text, x);
      }
    }
  }

  lemma {:induction false} OffsetsIncrease(text: string, arg: seq<Symbol>, offsets: seq<nat>, j: nat, k: nat)
    requires LaidOut(text, arg, offsets) && j < k <= |arg|
    ensures offsets[j] < offsets[k]
  {
    assert SymbolIn(text, arg, offsets, k - 1);
    if j < k - 1 {
      OffsetsIncrease(text, arg, offsets, j, k - 1);
    }
  }

  /** The symbol that holds a position of the text. */
  lemma SymbolAt(text: string, arg: seq<Symbol>, offsets: seq<nat>, pos: nat) returns (k: nat)
    requires LaidOut(text, arg, offsets) && pos < |text|
    ensures k < |arg| && offsets[k] <= pos < offsets[k + 1]
  {
    k := |arg|;
    while offsets[k] > pos
      invariant k <= |arg| && (k < |arg| ==> pos < offsets[k + 1])
      decreases k
    {
      k := k - 1;
      assert SymbolIn(text, arg, offsets, k);
    }
  }

  // ---- occurrences in the text --------------------------------------------------------------

  predicate Spelled(arg: seq<Symbol>, k: nat, n: nat)
    requires n <= 10
  {
    k + n <= |arg| && forall i {:trigger CMDLINE[i]} :: 0 <= i < n ==> arg[k + i] == Literal(CMDLINE[i])
  }

  /** What is spelled out occurs in the text. */
  lemma {:induction false} SpelledReaches(text: string, arg: seq<Symbol>, offsets: seq<nat>, k: nat, n: nat)
    requires LaidOut(text, arg, offsets) && SpelledAt(arg, k) && n <= 10
    ensures offsets[k + n] == offsets[k] + n <= |text|
    ensures forall i {:trigger CMDLINE[i]} :: 0 <= i < n ==> text[offsets[k] + i] == CMDLINE[i]
  {
    if n == 0 {
      assert k < |arg| && SymbolIn(text, arg, offsets, k);
    } else {
      SpelledReaches(text, arg, offsets, k, n - 1);
      var last := k + (n - 1);
      assert arg[k + (n - 1)] == Literal(CMDLINE[n - 1]);
      assert SymbolIn(text, arg, offsets, last);
    }
  }

  lemma BraceOnlyFirst(p: Placeholder)
    ensures Text(p) != "" && Text(p)[0] == '{' && forall i :: 0 < i < |Text(p)| ==> Text(p)[i] != '{'
  {
  }

  lemma DiffersFromCmdline(p: Placeholder) returns (i: nat)
    requires p != CmdlineArgs
    ensures i < |Text(p)| <= 10 && Text(p)[i] != CMDLINE[i]
  {
    i := if p.CmdlineString? then 8 else 1;
  }

  lemma CmdlineChars(i: nat)
    requires i < 10
    ensures CMDLINE[i] == '{' <==> i == 0
  {
  }

  lemma CharOf(text: string, p: Placeholder, from: nat, to: nat, i: nat)
    requires HoleAt(text, p, from, to) && i < to - from
    ensures i < |Text(p)| && text[from + i] == Text(p)[i]
  {
    assert text[from..to][i] == text[from + i];
  }

  lemma CharOfOccurrence(text: string, pos: nat, i: nat)
    requires OccursAt(text, pos) && i < 10
    ensures text[pos + i] == CMDLINE[i]
  {
  }

  /** A text that begins with anything but a brace belongs to an escaped or plain character. */
  lemma LiteralStart(text: string, x: Symbol, from: nat, to: nat, c: char)
    requires TakesUp(text, x, from, to) && text[from] == c && c != '{'
    ensures x == Literal(c) && to == from + 1
  {
    assert text[from..to][0] == text[from];
    if x.Hole? {
      BraceOnlyFirst(x.p);
    }
  }

  /** An occurrence begins with an escaped brace. */
  lemma BraceStart(text: string, x: Symbol, from: nat, to: nat, pos: nat)
    requires TakesUp(text, x, from, to) && x != Hole(CmdlineArgs)
    requires OccursAt(text, pos) && from <= pos < to
    ensures from == pos && x == Literal('{') && to == pos + 1
  {
    assert text[pos + 0] == CMDLINE[0];
    if x.Hole? {
      BraceOnlyFirst(x.p);
      CharOf(text, x.p, from, to, pos - from);
      var i := DiffersFromCmdline(x.p);
      CharOfOccurrence(text, pos, i);
      CharOf(text, x.p, from, to, i);
    }
  }

  lemma {:induction false} OccurrenceReaches(text: string, arg: seq<Symbol>, offsets: seq<nat>, k: nat, n: nat)
    requires LaidOut(text, arg, offsets) && k < |arg| && OccursAt(text, offsets[k]) && 1 <= n <= 10
    requires arg[k] == Literal('{')
    ensures Spelled(arg, k, n) && offsets[k + n] == offsets[k] + n
  {
    CmdlineChars(n - 1);
    if n == 1 {
      assert SymbolIn(text, arg, offsets, k);
    } else {
      OccurrenceReaches(text, arg, offsets, k, n - 1);
      var last := k + (n - 1);
      CharOfOccurrence(text, offsets[k], n - 1);
      assert last < |arg| && SymbolIn(text, arg, offsets, last);
      LiteralStart(text, arg[last], offsets[last], offsets[last + 1], CMDLINE[n - 1]);
    }
  }

  /** Only escaped characters can make up an occurrence, so it is spelled out symbol by symbol. */
  lemma OccurrenceIsSpelled(text: string, arg: seq<Symbol>, offsets: seq<nat>, pos: nat) returns (k: nat)
    requires LaidOut(text, arg, offsets) && Hole(CmdlineArgs) !in arg && OccursAt(text, pos)
    ensures SpelledAt(arg, k) && offsets[k] == pos
  {
    k := SymbolAt(text, arg, offsets, pos);
    assert arg[k] in arg && SymbolIn(text, arg, offsets, k);
    BraceStart(text, arg[k], offsets[k], offsets[k + 1], pos);
    OccurrenceReaches(text, arg, offsets, k, 10);
  }

  lemma FirstPlaces(text: string, arg: seq<Symbol>, offsets: seq<nat>, k: nat)
    requires LaidOut(text, arg, offsets) && Hole(CmdlineArgs) !in arg && FirstSpelled(arg, k)
    ensures FirstOccurrence(text, offsets[k])
  {
    SpelledReaches(text, arg, offsets, k, 10);
    forall pos: nat | pos < offsets[k] && OccursAt(text, pos) ensures false {
      var j := OccurrenceIsSpelled(text, arg, offsets, pos);
      if j > k {
        OffsetsIncrease(text, arg, offsets, k, j);
      }
    }
  }

  /** The character before a symbol. */
  lemma CharBefore(text: string, arg: seq<Symbol>, offsets: seq<nat>, k: nat)
    requires LaidOut(text, arg, offsets) && 0 < k <= |arg|
    ensures 0 < offsets[k] <= |text|
    ensures text[offsets[k] - 1] == '\\' <==> arg[k - 1] == Literal('\\')
  {
    var x, from, to := arg[k - 1], offsets[k - 1], offsets[k];
    assert SymbolIn(text, arg, offsets, k - 1);
    assert text[from..to][to - from - 1] == text[to - 1];
    if x.Hole? {
      EndsInBrace(x.p);
    }
  }

  lemma EndsInBrace(p: Placeholder)
    ensures Text(p) != "" && Text(p)[|Text(p)| - 1] == '}'
  {
  }

  lemma {:induction false} OnlyLiterals(text: string, arg: seq<Symbol>, offsets: seq<nat>)
    requires LaidOut(text, arg, offsets) && SpelledAt(arg, 0)
    ensures |text| == 10 <==> |arg| == 10
  {
    SpelledReaches(text, arg, offsets, 0, 10);
    if |arg| > 10 {
      OffsetsIncrease(text, arg, offsets, 10, |arg|);
    }
  }

  /** For any argument without the placeholder, the check on its text is the condition on its symbols. */
  lemma ArgumentPasses(arg: seq<Symbol>)
    requires Visible(arg) && Hole(CmdlineArgs) !in arg
    ensures Passes(RawText(arg)) <==> SpellsHarmlessly(arg)
  {
    var text, offsets := RawText(arg), Offsets(arg);
    ArgumentIsLaidOut(arg);
    forall k: nat | FirstSpelled(arg, k)
      ensures Passes(text) <==> if k == 0 then |arg| == 10 else arg[k - 1] == Literal('\\')
    {
      FirstPlaces(text, arg, offsets, k);
      FirstDecides(text, offsets[k]);
      if k == 0 {
        OnlyLiterals(text, arg, offsets);
      } else {
        CharBefore(text, arg, offsets, k);
      }
    }
    if k: nat :| FirstSpelled(arg, k) {
      assert forall other: nat :: FirstSpelled(arg, other) ==> other == k;
    } else {
      NothingSpelled(text, arg, offsets);
    }
  }

  lemma NothingSpelled(text: string, arg: seq<Symbol>, offsets: seq<nat>)
    requires LaidOut(text, arg, offsets) && Hole(CmdlineArgs) !in arg
    requires forall k: nat :: !FirstSpelled(arg, k)
    ensures Passes(text)
  {
    forall pos: nat | OccursAt(text, pos) ensures false {
      var k := OccurrenceIsSpelled(text, arg, offsets, pos);
      SomeFirst(arg, k);
    }
  }

  lemma {:induction false} SomeFirst(arg: seq<Symbol>, k: nat)
    requires SpelledAt(arg, k)
    ensures exists j: nat :: FirstSpelled(arg, j)
  {
    if j: nat :| j < k && SpelledAt(arg, j) {
      SomeFirst(arg, j);
    } else {
      assert FirstSpelled(arg, k);
    }
  }

  lemma PlaceholderPasses()
    ensures Passes(RawText([Hole(CmdlineArgs)]))
  {
    AppendSymbol([], Hole(CmdlineArgs), 0);
    Neutral([Hole(CmdlineArgs)]);
    Neutral(CMDLINE);
  }

  /**
   On an accepted template the debug check passes exactly if every argument that spells out `{cmdline@}` with an
   escaped brace does so as the whole argument or, where it does so first, behind an escaped backslash.
   */
  lemma AcceptedPasses(term: string)
    requires Accepted(term)
    ensures (forall arg <- RawTexts(Template(term)) :: Passes(arg))
            <==> forall arg <- Template(term) :: SpellsHarmlessly(arg)
  {
    var args := Template(term);
    TemplateStandsAlone([], Symbols(term).value, true);
    forall i | 0 <= i < |args| ensures Passes(RawTexts(args)[i]) <==> SpellsHarmlessly(args[i]) {
      assert args[i] in args;
      RawTextsAt(args, i);
      if args[i] == [Hole(CmdlineArgs)] {
        PlaceholderPasses();
      } else {
        ArgumentPasses(args[i]);
      }
    }
    if forall arg <- RawTexts(args) :: Passes(arg) {
      forall arg <- args ensures SpellsHarmlessly(arg) {
        var i :| 0 <= i < |args| && args[i] == arg;
        assert RawTexts(args)[i] in RawTexts(args);
      }
    }
    if forall arg <- args :: SpellsHarmlessly(arg) {
      forall text <- RawTexts(args) ensures Passes(text) {
        var i :| 0 <= i < |args| && RawTexts(args)[i] == text;
        assert args[i] in args;
      }
    }
  }

  lemma {:induction false} RawTextsAt(args: seq<seq<Symbol>>, i: nat)
    requires i < |args|
    ensures RawTexts(args)[i] == RawText(args[i])
  {
    if i < |args| - 1 {
      RawTextsAt(args[..|args| - 1], i);
    }
  }

  // ---- a template that fails ----------------------------------------------------------------

  lemma {:induction false} LiteralsAre(word: string)
    ensures |Literals(word)| == |word| && forall i :: 0 <= i < |word| ==> Literals(word)[i] == Literal(word[i])
  {
    if word != "" {
      LiteralsAre(word[1..]);
    }
  }

  /** Characters that mean nothing stand for themselves and stay together. */
  lemma {:induction false} PlainText(word: string, curr: seq<Symbol>, separated: bool)
    requires forall c <- word :: c != '\\' && c != '{' && c != ' '
    ensures Symbols(word) == Some(Literals(word)) && StandsAlone(separated, Literals(word))
    ensures curr != [] ==> Arguments(curr, Literals(word)) == [curr + Literals(word)]
  {
    if word == "" {
      Neutral(curr);
    } else {
      var x := Literal(word[0]);
      assert forall c <- word[1..] :: c in word;
      PlainText(word[1..], curr + [x], false);
      assert word[0] in word;
      assert Literals(word)[1..] == Literals(word[1..]);
      Assoc(curr, [x], Literals(word[1..]));
    }
  }

  lemma FirstTwo(word: string)
    requires forall c <- word :: c != '\\' && c != '{' && c != ' '
    ensures var term := "a\\{" + word;
            && Accepted(term) && Template(term) == [[Literal('a'), Literal('{')] + Literals(word)]
  {
    var term, escaped := "a\\{" + word, "\\{" + word;
    var a, brace, rest := Literal('a'), Literal('{'), Literals(word);
    PlainText(word, [a, brace], false);
    assert term[1..] == escaped && escaped[2..] == word;
    assert First(escaped) == Some((brace, 2)) && First(term) == Some((a, 1));
    assert Symbols(escaped) == Some([brace] + rest);
    var all := [a] + ([brace] + rest);
    assert Symbols(term) == Some(all);
    assert all[1..] == [brace] + rest && ([brace] + rest)[1..] == rest;
    assert StandsAlone(false, [brace] + rest) && StandsAlone(true, all);
    assert [] + [a] == [a] && [a] + [brace] == [a, brace];
    assert Arguments([a], [brace] + rest) == Arguments([a, brace], rest);
  }

  /** An accepted template that makes a debug build abort: `{cmdline@}` with an escaped brace inside an argument. */
  lemma EscapedPlaceholderAborts()
    ensures var term := "a\\{" + "cmdline@}";
            Accepted(term) && !forall arg <- RawTexts(Template(term)) :: Passes(arg)
  {
    var word := "cmdline@}";
    FirstTwo(word);
    AcceptedPasses("a\\{" + word);
    SpelledBehindA(word);
    var arg := [Literal('a'), Literal('{')] + Literals(word);
    assert arg in [arg] && !SpellsHarmlessly(arg);
  }

  lemma SpelledBehindA(word: string)
    requires word == "cmdline@}"
    ensures FirstSpelled([Literal('a'), Literal('{')] + Literals(word), 1)
    ensures !SpellsHarmlessly([Literal('a'), Literal('{')] + Literals(word))
  {
    LiteralsAre(word);
    var arg := [Literal('a'), Literal('{')] + Literals(word);
    forall i | 0 <= i < 10 ensures arg[1 + i] == Literal(CMDLINE[i]) {
      assert i > 0 ==> CMDLINE[i] == word[i - 1];
    }
    assert arg[0 + 0] != Literal(CMDLINE[0]);
    assert FirstSpelled(arg, 1);
  }
}
