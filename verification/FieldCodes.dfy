/** src/FieldCodes.cc: field codes of the Exec key (section 7 of the Desktop Entry Specification). */
module FieldCodes {
  import opened Utilities
  import opened Applications

  // ------------------------------------------------------------------------------------------
  // split() of src/Utilities.cc
  // ------------------------------------------------------------------------------------------

  /** Index of the first `c`, or the length. */
  function IndexOf(s: string, c: char): (k: nat)
    ensures k <= |s|
    ensures k < |s| ==> s[k] == c
  {
    if s == "" || s[0] == c then 0 else 1 + IndexOf(s[1..], c)
  }

  lemma {:induction false} IndexOfIs(s: string, c: char, k: nat)
    requires k <= |s| && (forall i :: 0 <= i < k ==> s[i] != c)
    requires k < |s| ==> s[k] == c
    ensures IndexOf(s, c) == k
  {
    if k > 0 {
      IndexOfIs(s[1..], c, k - 1);
    }
  }

  /** `str.find(c)` */
  method Find(str: string, c: char) returns (k: nat)
    ensures k == IndexOf(str, c)
  {
    k := 0;
    while k < |str| && str[k] != c
      invariant k <= |str| && IndexOf(str, c) == k + IndexOf(str[k..], c)
    {
      assert str[k..][1..] == str[k + 1..];
      k := k + 1;
    }
  }

  /** The pieces between delimiters, without an empty piece after a final delimiter. */
  function Pieces(s: string, delimiter: char): seq<string>
    decreases |s|
  {
    var k := IndexOf(s, delimiter);
    if k == |s| then [s]
    else if k == |s| - 1 then [s[..k]]
    else [s[..k]] + Pieces(s[k + 1..], delimiter)
  }

  lemma FirstPiece(s: string, delimiter: char, k: nat)
    requires IndexOf(s, delimiter) == k < |s| - 1
    ensures Pieces(s, delimiter) == [s[..k]] + Pieces(s[k + 1..], delimiter)
  {
  }

  lemma PiecesStep(result: seq<string>, s: string, delimiter: char, k: nat)
    requires IndexOf(s, delimiter) == k < |s| - 1
    ensures result + Pieces(s, delimiter) == result + [s[..k]] + Pieces(s[k + 1..], delimiter)
  {
    FirstPiece(s, delimiter, k);
    Assoc(result, [s[..k]], Pieces(s[k + 1..], delimiter));
  }

  lemma LastPiece(s: string, delimiter: char, k: nat)
    requires IndexOf(s, delimiter) == k && |s| - 1 <= k
    ensures Pieces(s, delimiter) == [s[..k]]
  {
    assert k == |s| ==> s[..k] == s;
  }

  /** `split` */
  method SplitAt(str: string, delimiter: char) returns (result: seq<string>)
    ensures result == Pieces(str, delimiter)
  {
    result := [];
    var begin := 0;
    var rest := str;
    ghost var whole := Pieces(str, delimiter);
    Neutral(whole);
    while true
      invariant 0 <= begin <= |str| && rest == str[begin..]
      invariant result + Pieces(rest, delimiter) == whole
      decreases |str| - begin
    {
      var k := Find(rest, delimiter);
      if k == |rest| {
        LastPiece(rest, delimiter, k);
        assert rest[..k] == rest;
        return result + [rest];
      }
      if k == |rest| - 1 {
        LastPiece(rest, delimiter, k);
        return result + [rest[..k]];
      }
      PiecesStep(result, rest, delimiter, k);
      result := result + [rest[..k]];
      begin := begin + k + 1;
      rest := rest[k + 1..];
    }
  }

  function NonEmpty(s: seq<string>): seq<string> {
    if s == [] then [] else (if s[0] == "" then [] else [s[0]]) + NonEmpty(s[1..])
  }

  method RemoveEmpty(s: seq<string>) returns (r: seq<string>)
    ensures r == NonEmpty(s)
  {
    r := [];
    for i := 0 to |s|
      invariant r + NonEmpty(s[i..]) == NonEmpty(s)
    {
      assert s[i..][1..] == s[i + 1..];
      Assoc(r, [s[i]], NonEmpty(s[i + 1..]));
      Neutral(NonEmpty(s[i + 1..]));
      if s[i] != "" {
        r := r + [s[i]];
      }
    }
  }

  /** The maximal runs of characters other than the delimiter. */
  function Runs(s: string, delimiter: char): seq<string>
    decreases |s|
  {
    if s == "" then []
    else if s[0] == delimiter then Runs(s[1..], delimiter)
    else
      var k := IndexOf(s, delimiter);
      [s[..k]] + Runs(s[k..], delimiter)
  }

  lemma {:induction false} PiecesAreRuns(s: string, delimiter: char)
    ensures NonEmpty(Pieces(s, delimiter)) == Runs(s, delimiter)
    decreases |s|
  {
    var k := IndexOf(s, delimiter);
    if k == |s| {
      assert s[k..] == "" && s[..k] == s && [s][1..] == [];
    } else {
      assert s[k..][1..] == s[k + 1..];
      var rest := if k == |s| - 1 then [] else Pieces(s[k + 1..], delimiter);
      assert ([s[..k]] + rest)[1..] == rest;
      if k < |s| - 1 {
        PiecesAreRuns(s[k + 1..], delimiter);
      }
      assert NonEmpty(rest) == Runs(s[k + 1..], delimiter) == Runs(s[k..], delimiter);
      assert [s[..k]] + rest == Pieces(s, delimiter);
    }
  }

  /** Words with spaces between them. */
  function Joined(words: seq<string>, delimiter: char): string {
    if words == [] then "" else [delimiter] + (words[0] + Joined(words[1..], delimiter))
  }

  lemma FirstRun(word: string, delimiter: char, rest: string)
    requires word != "" && delimiter !in word && (rest == "" || rest[0] == delimiter)
    ensures Runs(word + rest, delimiter) == [word] + Runs(rest, delimiter)
  {
    var s := word + rest;
    assert s[0] == word[0] && word[0] in word;
    assert forall i :: 0 <= i < |word| ==> s[i] == word[i] && word[i] in word;
    IndexOfIs(s, delimiter, |word|);
    SplitConcat(word, rest);
  }

  /** The runs of words joined by delimiters are the words. */
  lemma {:induction false} RunsOfJoined(words: seq<string>, delimiter: char)
    requires forall word <- words :: word != "" && delimiter !in word
    ensures Runs(Joined(words, delimiter), delimiter) == words
  {
    if words != [] {
      assert words[0] in words && forall word <- words[1..] :: word in words;
      RunsOfJoined(words[1..], delimiter);
      var text := words[0] + Joined(words[1..], delimiter);
      assert Joined(words, delimiter)[1..] == text;
      FirstRun(words[0], delimiter, Joined(words[1..], delimiter));
      assert words == [words[0]] + words[1..];
    }
  }

  // ------------------------------------------------------------------------------------------
  // expand_field_codes()
  // ------------------------------------------------------------------------------------------

  /** What becomes of one argument: an exception, or new arguments and whether the next argument is passed over. */
  datatype Effect = Throw | Become(args: seq<string>, skipNext: bool)

  /** The words that the user typed after the name. */
  function UserWords(user: string): seq<string> {
    Runs(user, ' ')
  }

  /** Several words in place of an embedded code: the text around it stays around them. */
  function SpreadWords(text: string, words: seq<string>, suffix: string): seq<string>
    requires |words| >= 2
  {
    [text + words[0]] + words[1..|words| - 1] + [words[|words| - 1] + suffix]
  }

  /** `size` is the number of arguments at that moment: the source compares it with a position in `arg`. */
  function EffectOf(arg: string, size: nat, app: Application, user: string): Effect {
    var pos := IndexOf(arg, '%');
    if pos == |arg| then Become([arg], false)
    else if pos == |arg| - 1 then Throw
    else
      var code, before, after := arg[pos + 1], arg[..pos], arg[pos + 2..];
      if code == '%' then Become([before + "%" + after], false)
      else if code in "fFuU" then
        var words := UserWords(user);
        if words == [] then (if |arg| == 2 then Become([], true) else Become([before + after], false))
        else if |words| == 1 then Become([before + user + after], false)
        else
          Become(SpreadWords(before, words, if pos + 2 < size then after else ""), true)
      else if code == 'c' then Become([before + app.name + after], false)
      else if code == 'k' then Become([before + app.location + after], false)
      else if code in "idDnNvm" then Become([arg], false)
      else Throw
  }

  /** The whole loop, from the argument that it has reached; None stands for the exception. */
  function ExpandFrom(done: seq<string>, rest: seq<string>, app: Application, user: string): Option<seq<string>>
    decreases |rest|
  {
    if rest == [] then Some(done)
    else
      match EffectOf(rest[0], |done| + |rest|, app, user)
      case Throw => None
      case Become(args, skipNext) =>
        if skipNext && |rest| > 1 then ExpandFrom(done + args + [rest[1]], rest[2..], app, user)
        else ExpandFrom(done + args, rest[1..], app, user)
  }

  /** The vector and the iterator at the end of one round; `stop` is the early return at the end of the vector. */
  datatype Round = Failed | Round(args: seq<string>, next: nat, stop: bool)

  ghost predicate RoundOf(r: Round, args: seq<string>, i: nat, e: Effect)
    requires i < |args|
  {
    match e
    case Throw => r.Failed?
    case Become(changed, skipNext) =>
      && r.Round?
      && r.args == args[..i] + changed + args[i + 1..]
      && r.stop == (skipNext && i + 1 == |args|)
      && r.next == i + |changed| + (if skipNext && !r.stop then 1 else 0)
  }

  /** The case of `%f`, `%F`, `%u` and `%U`. */
  method ExpandUserCode(commandArray: seq<string>, i: nat, pos: nat, app: Application, user: string) returns (r: Round)
    requires i < |commandArray| && pos == IndexOf(commandArray[i], '%') && pos + 1 < |commandArray[i]|
    requires commandArray[i][pos + 1] in "fFuU"
    ensures RoundOf(r, commandArray, i, EffectOf(commandArray[i], |commandArray|, app, user))
  {
    var args := commandArray;
    var arg := args[i];
    var pieces := SplitAt(user, ' ');
    var words := RemoveEmpty(pieces);
    PiecesAreRuns(user, ' ');
    if words == [] {
      if pos == 0 && |arg| == 2 {
        args := args[..i] + args[i + 1..];
        assert commandArray[..i] + [] == commandArray[..i];
        if i == |args| {
          return Round(args, i, true);
        }
        return Round(args, i + 1, false);
      }
      return Round(args[i := arg[..pos] + arg[pos + 2..]], i + 1, false);
    } else if |words| == 1 {
      return Round(args[i := arg[..pos] + user + arg[pos + 2..]], i + 1, false);
    }
    r := SpreadUserWords(args, i, pos, words);
  }

  /** Several words: the first stays in the argument, the others are inserted after it. */
  method SpreadUserWords(commandArray: seq<string>, i: nat, pos: nat, words: seq<string>) returns (r: Round)
    requires i < |commandArray| && pos + 2 <= |commandArray[i]| && |words| >= 2
    ensures var arg := commandArray[i];
            var suffix := if pos + 2 < |commandArray| then arg[pos + 2..] else "";
            RoundOf(r, commandArray, i, Become(SpreadWords(arg[..pos], words, suffix), true))
  {
    var args := commandArray;
    var arg := args[i];
    var suffix := "";
    if pos + 2 < |args| {
      suffix := arg[pos + 2..];
    }
    var n := |words|;
    args := args[i := arg[..pos] + words[0]];
    var iter := i + 1;
    args := args[..iter] + words[1..n - 1] + args[iter..];
    iter := iter + (n - 2);
    args := args[..iter] + [words[n - 1] + suffix] + args[iter..];
    iter := iter + 1;
    assert args == commandArray[..i] + SpreadWords(arg[..pos], words, suffix) + commandArray[i + 1..];
    if iter == |args| {
      return Round(args, iter, true);
    }
    return Round(args, iter + 1, false);
  }

  /** One round of the loop. */
  method ExpandOne(args: seq<string>, i: nat, app: Application, user: string) returns (r: Round)
    requires i < |args|
    ensures RoundOf(r, args, i, EffectOf(args[i], |args|, app, user))
  {
    var arg := args[i];
    var pos := Find(arg, '%');
    if pos == |arg| {
      return Round(args, i + 1, false);
    }
    if pos == |arg| - 1 {
      return Failed;
    }
    var code := arg[pos + 1];
    if code == '%' {
      return Round(args[i := arg[..pos] + "%" + arg[pos + 2..]], i + 1, false);
    } else if code in "fFuU" {
      r := ExpandUserCode(args, i, pos, app, user);
    } else if code == 'c' {
      return Round(args[i := arg[..pos] + app.name + arg[pos + 2..]], i + 1, false);
    } else if code == 'k' {
      return Round(args[i := arg[..pos] + app.location + arg[pos + 2..]], i + 1, false);
    } else if code in "idDnNvm" {
      return Round(args, i + 1, false);
    } else {
      return Failed;
    }
  }

  /** `expand_field_codes`, editing the argument vector in place. */
  method ExpandFieldCodes(commandArray: seq<string>, app: Application, user: string) returns (r: Option<seq<string>>)
    ensures r == ExpandFrom([], commandArray, app, user)
  {
    var args := commandArray;
    var i := 0;
    assert args[..0] == [] && args[0..] == args;
    while i < |args|
      invariant 0 <= i <= |args|
      invariant ExpandFrom(args[..i], args[i..], app, user) == ExpandFrom([], commandArray, app, user)
      decreases |args| - i
    {
      var round := ExpandOne(args, i, app, user);
      if round.Failed? {
        return None;
      }
      RoundAdvances(args, i, app, user, round);
      args, i := round.args, round.next;
      if round.stop {
        return Some(args);
      }
    }
    assert args[..i] == args && args[i..] == [];
    return Some(args);
  }

  lemma RoundAdvances(args: seq<string>, i: nat, app: Application, user: string, r: Round)
    requires i < |args| && r.Round? && RoundOf(r, args, i, EffectOf(args[i], |args|, app, user))
    ensures r.stop ==> ExpandFrom(args[..i], args[i..], app, user) == Some(r.args)
    ensures !r.stop ==> r.next <= |r.args| && |r.args| - r.next < |args| - i
                        && ExpandFrom(args[..i], args[i..], app, user)
                           == ExpandFrom(r.args[..r.next], r.args[r.next..], app, user)
  {
    var done, rest := args[..i], args[i..];
    var e := EffectOf(args[i], |args|, app, user);
    assert rest[1..] == args[i + 1..];
    if e.skipNext && |rest| > 1 {
      assert r.args[..r.next] == done + e.args + [rest[1]];
      assert r.args[r.next..] == rest[2..];
    } else {
      assert r.args[..r.next] == done + e.args;
      assert r.args[r.next..] == rest[1..];
      assert rest[1..] == [] ==> r.args == done + e.args;
    }
  }

  predicate NoCodes(args: seq<string>) {
    forall arg <- args :: '%' !in arg
  }

  lemma {:induction false} ArgumentsWithoutCodes(done: seq<string>, plain: seq<string>, rest: seq<string>,
                                                 app: Application, user: string)
    requires NoCodes(plain)
    ensures ExpandFrom(done, plain + rest, app, user) == ExpandFrom(done + plain, rest, app, user)
    decreases |plain|
  {
    if plain == [] {
      assert plain + rest == rest && done + plain == done;
    } else {
      assert plain[0] in plain && forall arg <- plain[1..] :: arg in plain;
      IndexOfIs(plain[0], '%', |plain[0]|);
      assert (plain + rest)[1..] == plain[1..] + rest;
      ArgumentsWithoutCodes(done + [plain[0]], plain[1..], rest, app, user);
      assert done + [plain[0]] + plain[1..] == done + plain;
    }
  }

  /** Without field codes the command is left alone. */
  lemma NoCodesNoChange(args: seq<string>, app: Application, user: string)
    requires NoCodes(args)
    ensures ExpandFrom([], args, app, user) == Some(args)
  {
    ArgumentsWithoutCodes([], args, [], app, user);
    assert args + [] == args && [] + args == args;
  }

  function Applied(before: seq<string>, e: Effect, after: seq<string>): Option<seq<string>> {
    if e.Throw? then None else Some(before + e.args + after)
  }

  /** A single argument with a code is replaced by its effect, and everything around it stays. */
  lemma OneArgumentWithCode(before: seq<string>, arg: string, after: seq<string>, app: Application, user: string)
    requires NoCodes(before) && NoCodes(after)
    ensures ExpandFrom([], before + [arg] + after, app, user)
         == Applied(before, EffectOf(arg, |before| + 1 + |after|, app, user), after)
  {
    var rest := [arg] + after;
    Assoc(before, [arg], after);
    Neutral(before);
    SplitConcat([arg], after);
    ArgumentsWithoutCodes([], before, rest, app, user);
    var e := EffectOf(arg, |before| + |rest|, app, user);
    if e.Become? {
      ArgumentsAfterCode(before + e.args, after, e.skipNext, app, user);
      assert e.skipNext && after != [] ==> rest[1] == after[0] && rest[2..] == after[1..];
    }
  }

  /** Whether or not the next argument is passed over, arguments without codes stay. */
  lemma ArgumentsAfterCode(done: seq<string>, after: seq<string>, skipNext: bool, app: Application, user: string)
    requires NoCodes(after)
    ensures (if skipNext && after != [] then ExpandFrom(done + [after[0]], after[1..], app, user)
             else ExpandFrom(done, after, app, user)) == Some(done + after)
  {
    if skipNext && after != [] {
      assert forall x <- after[1..] :: x in after;
      assert after == [after[0]] + after[1..];
      Assoc(done, [after[0]], after[1..]);
      Neutral(after[1..]);
      ArgumentsWithoutCodes(done + [after[0]], after[1..], [], app, user);
    } else {
      Neutral(after);
      ArgumentsWithoutCodes(done, after, [], app, user);
    }
  }

  /** What the user's text contributes as arguments of its own: one word keeps its surrounding spaces. */
  function UserArguments(user: string): seq<string> {
    if |UserWords(user)| == 1 then [user] else UserWords(user)
  }

  /** The usual case, a standalone `%f`, `%F`, `%u` or `%U`: the user's words take its place and are not scanned. */
  lemma StandaloneUserCode(before: seq<string>, code: char, after: seq<string>, app: Application, user: string)
    requires NoCodes(before) && NoCodes(after) && code in "fFuU"
    ensures ExpandFrom([], before + [['%', code]] + after, app, user) == Some(before + UserArguments(user) + after)
  {
    var arg, words := ['%', code], UserWords(user);
    OneArgumentWithCode(before, arg, after, app, user);
    assert arg[2..] == "" && arg[..0] == "";
    var n := |words|;
    if n == 1 {
      assert "" + user + "" == user;
    } else if n > 1 {
      assert "" + words[0] == words[0] && words[n - 1] + "" == words[n - 1];
      assert [words[0]] + words[1..n - 1] + [words[n - 1]] == words;
    }
  }

  /** An argument with an embedded code as the comment in the source promises it: the text around the code stays. */
  function AroundWords(text: string, user: string, suffix: string): seq<string> {
    var words := UserWords(user);
    if words == [] then (if text + suffix == "" then [] else [text + suffix])
    else if |words| == 1 then [text + user + suffix]
    else SpreadWords(text, words, suffix)
  }

  /**
   The promise is kept exactly when there are less than two words, when there is no suffix, or when the number of
   arguments exceeds the suffix's position in its argument.
   */
  lemma EmbeddedUserCode(before: seq<string>, text: string, code: char, suffix: string, after: seq<string>,
                         app: Application, user: string)
    requires NoCodes(before) && NoCodes(after) && '%' !in text && code in "fFuU"
    ensures ExpandFrom([], before + [text + ['%', code] + suffix] + after, app, user)
            == Some(before + AroundWords(text, user, suffix) + after)
            <==> |UserWords(user)| < 2 || suffix == "" || |text| + 2 < |before| + 1 + |after|
  {
    var arg, words, size := text + ['%', code] + suffix, UserWords(user), |before| + 1 + |after|;
    OneArgumentWithCode(before, arg, after, app, user);
    FirstCode(text, arg);
    assert arg[..|text|] == text && arg[|text| + 2..] == suffix && arg[|text| + 1] == code;
    if |words| >= 2 {
      var kept := if |text| + 2 < size then suffix else "";
      assert EffectOf(arg, size, app, user).args == SpreadWords(text, words, kept);
      SuffixDecides(before, text, words, kept, suffix, after);
    } else {
      assert |arg| == 2 <==> text + suffix == "";
      assert EffectOf(arg, size, app, user).args == AroundWords(text, user, suffix);
    }
  }

  lemma SuffixDecides(before: seq<string>, text: string, words: seq<string>, kept: string, suffix: string,
                      after: seq<string>)
    requires |words| >= 2 && (kept == suffix || kept == "")
    ensures before + SpreadWords(text, words, kept) + after == before + SpreadWords(text, words, suffix) + after
            <==> kept == suffix
  {
    var got := before + SpreadWords(text, words, kept) + after;
    var promised := before + SpreadWords(text, words, suffix) + after;
    var last := |before| + |words| - 1;
    assert got[last] == words[|words| - 1] + kept && promised[last] == words[|words| - 1] + suffix;
    if got == promised {
      assert |got[last]| == |promised[last]|;
    }
  }

  lemma FirstCode(text: string, arg: string)
    requires '%' !in text && |text| < |arg| && arg[..|text|] == text && arg[|text|] == '%'
    ensures IndexOf(arg, '%') == |text|
  {
    assert forall i :: 0 <= i < |text| ==> arg[i] == text[i] && text[i] in text;
    IndexOfIs(arg, '%', |text|);
  }

  lemma TwoWords()
    ensures UserWords("x y") == ["x", "y"]
  {
    var user := "x y";
    assert user[1..] == " y" && user[1..][1..] == "y" && user[..1] == "x" && "y"[..1] == "y" && "y"[1..] == "";
  }

  /** The suffix is really lost when the command is the one argument. */
  lemma EmbeddedSuffixIsLost(app: Application)
    ensures ExpandFrom([], ["a%fb"], app, "x y") != Some(AroundWords("a", "x y", "b"))
  {
    TwoWords();
    EmbeddedUserCode([], "a", 'f', "b", [], app, "x y");
    assert "a" + ['%', 'f'] + "b" == "a%fb";
    Neutral(["a%fb"]);
    Neutral(AroundWords("a", "x y", "b"));
  }

  // ---- several arguments with codes ---------------------------------------------------------

  predicate HasUserCode(arg: string) {
    var pos := IndexOf(arg, '%');
    pos + 1 < |arg| && arg[pos + 1] in "fFuU"
  }

  /** Expanding the argument neither erases nor multiplies it. */
  predicate StaysOne(arg: string, user: string) {
    HasUserCode(arg) ==> |UserWords(user)| == 1 || (UserWords(user) == [] && |arg| > 2)
  }

  /** Every argument by itself, in place. */
  function EachExpanded(args: seq<string>, app: Application, user: string): Option<seq<string>> {
    if args == [] then Some([])
    else
      var first, rest := EffectOf(args[0], 0, app, user), EachExpanded(args[1..], app, user);
      if first.Throw? || rest.None? then None else Some(first.args + rest.value)
  }

  lemma OneForOne(arg: string, size: nat, app: Application, user: string)
    requires StaysOne(arg, user)
    ensures EffectOf(arg, size, app, user) == EffectOf(arg, 0, app, user)
    ensures EffectOf(arg, 0, app, user).Become? ==>
              |EffectOf(arg, 0, app, user).args| == 1 && !EffectOf(arg, 0, app, user).skipNext
  {
  }

  /**
   Any number of codes: as long as none is erased or multiplied, each argument is expanded by itself and keeps its
   place, and the whole expansion fails exactly if one of them does.
   */
  lemma {:induction false} EachArgumentByItself(done: seq<string>, rest: seq<string>, app: Application, user: string)
    requires forall arg <- rest :: StaysOne(arg, user)
    ensures var each := EachExpanded(rest, app, user);
            && ExpandFrom(done, rest, app, user) == (if each.None? then None else Some(done + each.value))
            && (each.Some? ==> |each.value| == |rest|)
    decreases |rest|
  {
    if rest == [] {
      Neutral(done);
    } else {
      OneForOne(rest[0], |done| + |rest|, app, user);
      var first := EffectOf(rest[0], 0, app, user);
      if first.Become? {
        assert forall arg <- rest[1..] :: arg in rest;
        EachArgumentByItself(done + first.args, rest[1..], app, user);
        var each := EachExpanded(rest[1..], app, user);
        if each.Some? {
          Assoc(done, first.args, each.value);
        }
      }
    }
  }

  // ---- arguments that are passed over -------------------------------------------------------

  /** Expanding the argument erases or multiplies it. */
  predicate ErasesOrMultiplies(arg: string, user: string) {
    HasUserCode(arg) && (|UserWords(user)| >= 2 || (UserWords(user) == [] && |arg| == 2))
  }

  /** Argument `k` is not scanned: the one before it is scanned and erased or multiplied. */
  predicate PassedOver(args: seq<string>, user: string, k: nat)
    requires k <= |args|
  {
    k > 0 && !PassedOver(args, user, k - 1) && ErasesOrMultiplies(args[k - 1], user)
  }

  /** The expansion that a reader expects: every argument of the command is expanded. */
  function ExpandEvery(done: seq<string>, rest: seq<string>, app: Application, user: string): Option<seq<string>>
    decreases |rest|
  {
    if rest == [] then Some(done)
    else
      match EffectOf(rest[0], |done| + |rest|, app, user)
      case Throw => None
      case Become(args, _) => ExpandEvery(done + args, rest[1..], app, user)
  }

  /** Expanding the argument leaves it as it is. */
  predicate StaysTheSame(arg: string, app: Application, user: string) {
    EffectOf(arg, 0, app, user) == Become([arg], false)
  }

  predicate Throws(arg: string, app: Application, user: string) {
    EffectOf(arg, 0, app, user).Throw?
  }

  /** The number of arguments matters only for the suffix of a multiplied argument. */
  lemma SizeMattersLittle(arg: string, size: nat, app: Application, user: string)
    ensures var e, e0 := EffectOf(arg, size, app, user), EffectOf(arg, 0, app, user);
            && (e.Throw? <==> e0.Throw?)
            && (e.Become? ==> && |e.args| == |e0.args| && e.skipNext == e0.skipNext == ErasesOrMultiplies(arg, user)
                              && (|e.args| == 1 ==> e == e0 && !e.skipNext)
                              && (UserWords(user) == [] ==> |e.args| <= 1)
                              && (UserWords(user) != [] ==> |e.args| >= 1)
                              && (!e.skipNext ==> |e.args| == 1))
  {
  }

  /** Everything after an argument that is not passed over behaves as a command of its own. */
  lemma {:induction false} PassedOverInSuffix(args: seq<string>, user: string, j: nat, k: nat)
    requires j <= |args| && k <= |args| - j && !PassedOver(args, user, j)
    ensures PassedOver(args[j..], user, k) == PassedOver(args, user, j + k)
  {
    if k > 0 {
      PassedOverInSuffix(args, user, j, k - 1);
      assert args[j..][k - 1] == args[j + (k - 1)];
    }
  }

  /** None of the arguments that are passed over would change. */
  ghost predicate NothingMissed(args: seq<string>, app: Application, user: string) {
    forall k: nat | k < |args| && PassedOver(args, user, k) :: StaysTheSame(args[k], app, user)
  }

  /** Some argument that is scanned has an invalid code. */
  ghost predicate ScannedThrows(args: seq<string>, app: Application, user: string) {
    exists k: nat :: k < |args| && !PassedOver(args, user, k) && Throws(args[k], app, user)
  }

  /** How many arguments the loop takes at once. */
  function Stride(args: seq<string>, user: string): (n: nat)
    requires args != []
    ensures 1 <= n <= |args| && n <= 2
  {
    if |args| > 1 && ErasesOrMultiplies(args[0], user) then 2 else 1
  }

  lemma SuffixAt(args: seq<string>, user: string, k: nat)
    requires args != [] && k < |args| - Stride(args, user)
    ensures var n := Stride(args, user);
            PassedOver(args[n..], user, k) == PassedOver(args, user, n + k) && args[n..][k] == args[n + k]
  {
    var n := Stride(args, user);
    assert !PassedOver(args, user, 0);
    assert PassedOver(args, user, 1) == ErasesOrMultiplies(args[0], user);
    PassedOverInSuffix(args, user, n, k);
  }

  lemma MissedInSuffix(args: seq<string>, app: Application, user: string)
    requires args != []
    ensures var n := Stride(args, user);
            NothingMissed(args, app, user)
            <==> (n == 2 ==> StaysTheSame(args[1], app, user)) && NothingMissed(args[n..], app, user)
  {
    var n := Stride(args, user);
    assert n == 2 ==> PassedOver(args, user, 1);
    if NothingMissed(args, app, user) {
      forall k: nat | k < |args| - n && PassedOver(args[n..], user, k) ensures StaysTheSame(args[n..][k], app, user) {
        SuffixAt(args, user, k);
      }
    }
    if (n == 2 ==> StaysTheSame(args[1], app, user)) && NothingMissed(args[n..], app, user) {
      forall k: nat | k < |args| && PassedOver(args, user, k) ensures StaysTheSame(args[k], app, user) {
        if n <= k {
          SuffixAt(args, user, k - n);
        }
      }
    }
  }

  lemma ThrowsInSuffix(args: seq<string>, app: Application, user: string)
    requires args != []
    ensures ScannedThrows(args, app, user)
            <==> Throws(args[0], app, user) || ScannedThrows(args[Stride(args, user)..], app, user)
  {
    var n := Stride(args, user);
    if k: nat :| k < |args| && !PassedOver(args, user, k) && Throws(args[k], app, user) {
      assert n == 2 ==> PassedOver(args, user, 1);
      if n <= k {
        SuffixAt(args, user, k - n);
      }
    }
    if k: nat :| k < |args| - n && !PassedOver(args[n..], user, k) && Throws(args[n..][k], app, user) {
      SuffixAt(args, user, k);
    }
    assert !PassedOver(args, user, 0);
  }

  /** The loop, one stride at a time. */
  lemma ExpandStride(done: seq<string>, rest: seq<string>, app: Application, user: string)
    requires rest != []
    ensures var e, n := EffectOf(rest[0], |done| + |rest|, app, user), Stride(rest, user);
            ExpandFrom(done, rest, app, user)
            == if e.Throw? then None else ExpandFrom(done + e.args + rest[1..n], rest[n..], app, user)
  {
    SizeMattersLittle(rest[0], |done| + |rest|, app, user);
    var e := EffectOf(rest[0], |done| + |rest|, app, user);
    if e.Become? {
      if Stride(rest, user) == 2 {
        assert rest[1..2] == [rest[1]];
      } else {
        assert rest[1..1] == [];
        Neutral(done + e.args);
      }
    }
  }

  /** The expansion fails exactly if some argument that is scanned has an invalid code. */
  lemma {:induction false} ScannedArgumentsFail(done: seq<string>, rest: seq<string>, app: Application, user: string)
    ensures ExpandFrom(done, rest, app, user).None? <==> ScannedThrows(rest, app, user)
    decreases |rest|
  {
    if rest != [] {
      var e, n := EffectOf(rest[0], |done| + |rest|, app, user), Stride(rest, user);
      SizeMattersLittle(rest[0], |done| + |rest|, app, user);
      ExpandStride(done, rest, app, user);
      ThrowsInSuffix(rest, app, user);
      if e.Become? {
        ScannedArgumentsFail(done + e.args + rest[1..n], rest[n..], app, user);
      }
    }
  }

  lemma {:induction false} EveryArgumentFails(done: seq<string>, rest: seq<string>, app: Application, user: string,
                                              k: nat)
    requires k < |rest| && Throws(rest[k], app, user)
    ensures ExpandEvery(done, rest, app, user).None?
    decreases |rest|
  {
    SizeMattersLittle(rest[0], |done| + |rest|, app, user);
    var e := EffectOf(rest[0], |done| + |rest|, app, user);
    if e.Become? {
      EveryArgumentFails(done + e.args, rest[1..], app, user, k - 1);
    }
  }

  lemma EveryStep(done: seq<string>, arg: string, rest: seq<string>, app: Application, user: string)
    ensures var e := EffectOf(arg, |done| + 1 + |rest|, app, user);
            ExpandEvery(done, [arg] + rest, app, user)
            == if e.Throw? then None else ExpandEvery(done + e.args, rest, app, user)
  {
    assert ([arg] + rest)[1..] == rest;
  }

  /**
   Compared with expanding everything, passing over an argument can only save it from being erased, or keep it
   from being multiplied.
   */
  lemma {:induction false} LengthsCompare(done1: seq<string>, done2: seq<string>, rest: seq<string>, app: Application,
                                          user: string)
    requires ExpandFrom(done1, rest, app, user).Some? && ExpandEvery(done2, rest, app, user).Some?
    ensures var some, every := ExpandFrom(done1, rest, app, user).value, ExpandEvery(done2, rest, app, user).value;
            && (UserWords(user) == [] ==> |every| - |done2| <= |some| - |done1|)
            && (UserWords(user) != [] ==> |every| - |done2| >= |some| - |done1|)
    decreases |rest|
  {
    if rest != [] {
      var n := Stride(rest, user);
      var e1, e2 := EffectOf(rest[0], |done1| + |rest|, app, user), EffectOf(rest[0], |done2| + |rest|, app, user);
      SizeMattersLittle(rest[0], |done1| + |rest|, app, user);
      SizeMattersLittle(rest[0], |done2| + |rest|, app, user);
      ExpandStride(done1, rest, app, user);
      if n == 1 {
        LengthsCompare(done1 + e1.args + rest[1..n], done2 + e2.args, rest[1..], app, user);
      } else {
        var size := |done2 + e2.args| + |rest[1..]|;
        SizeMattersLittle(rest[1], size, app, user);
        assert rest[1..][1..] == rest[2..];
        LengthsCompare(done1 + e1.args + rest[1..n], done2 + e2.args + EffectOf(rest[1], size, app, user).args,
                       rest[2..], app, user);
      }
    }
  }

  /** Only where the two expansions have the same length so far can they still agree. */
  lemma {:induction false} MissingDecides(done1: seq<string>, done2: seq<string>, rest: seq<string>, app: Application,
                                          user: string)
    requires |done1| == |done2| && ExpandFrom(done1, rest, app, user).Some?
    ensures ExpandFrom(done1, rest, app, user) == ExpandEvery(done2, rest, app, user)
            <==> done1 == done2 && NothingMissed(rest, app, user)
    decreases |rest|
  {
    if rest != [] {
      var n, size := Stride(rest, user), |done1| + |rest|;
      var e := EffectOf(rest[0], size, app, user);
      SizeMattersLittle(rest[0], size, app, user);
      ExpandStride(done1, rest, app, user);
      MissedInSuffix(rest, app, user);
      if n == 1 {
        Neutral(done1 + e.args);
        MissingDecides(done1 + e.args, done2 + e.args, rest[1..], app, user);
        SamePrefix(done1, done2, e.args);
      } else {
        MissedArgumentDecides(done1 + e.args, done2 + e.args, rest[1], rest[2..], app, user);
        SamePrefix(done1, done2, e.args);
        assert rest[1..2] == [rest[1]] && rest[1..] == [rest[1]] + rest[2..];
      }
    }
  }

  lemma SamePrefix<T>(a: seq<T>, b: seq<T>, c: seq<T>)
    requires |a| == |b|
    ensures a + c == b + c <==> a == b
  {
    SplitConcat(a, c);
    SplitConcat(b, c);
  }

  lemma SameParts<T>(a: seq<T>, b: seq<T>, x: seq<T>, y: seq<T>)
    requires |a| == |b|
    ensures a + x == b + y <==> a == b && x == y
  {
    SplitConcat(a, x);
    SplitConcat(b, y);
  }

  /** The argument that is passed over, kept by one expansion and expanded by the other. */
  lemma {:induction false} MissedArgumentDecides(done1: seq<string>, done2: seq<string>, arg: string, rest: seq<string>,
                                                 app: Application, user: string)
    requires |done1| == |done2| && |UserWords(user)| != 1
    requires ExpandFrom(done1 + [arg], rest, app, user).Some?
    ensures ExpandFrom(done1 + [arg], rest, app, user) == ExpandEvery(done2, [arg] + rest, app, user)
            <==> done1 == done2 && StaysTheSame(arg, app, user) && NothingMissed(rest, app, user)
    decreases |rest| + 1
  {
    var size := |done2| + 1 + |rest|;
    var x := EffectOf(arg, size, app, user);
    SizeMattersLittle(arg, size, app, user);
    EveryStep(done2, arg, rest, app, user);
    if x.Become? {
      if |x.args| == 1 {
        MissingDecides(done1 + [arg], done2 + x.args, rest, app, user);
        SameParts(done1, done2, [arg], x.args);
      } else if ExpandEvery(done2 + x.args, rest, app, user).Some? {
        LengthsCompare(done1 + [arg], done2 + x.args, rest, app, user);
      }
    }
  }

  /**
   Does the command come out as if every argument were expanded? It does exactly if some scanned argument makes
   the expansion fail anyway, or if no argument that is passed over would have changed.
   */
  lemma EveryArgumentIsExpanded(args: seq<string>, app: Application, user: string)
    ensures ExpandFrom([], args, app, user) == ExpandEvery([], args, app, user)
            <==> ScannedThrows(args, app, user) || NothingMissed(args, app, user)
  {
    ScannedArgumentsFail([], args, app, user);
    if ScannedThrows(args, app, user) {
      var k: nat :| k < |args| && !PassedOver(args, user, k) && Throws(args[k], app, user);
      EveryArgumentFails([], args, app, user, k);
    } else {
      MissingDecides([], [], args, app, user);
    }
  }

  /** In particular when no argument directly behind an erased or multiplied one contains a percent sign. */
  lemma PlainArgumentsAreNotMissed(args: seq<string>, app: Application, user: string)
    requires forall k: nat | k < |args| && PassedOver(args, user, k) :: '%' !in args[k]
    ensures ExpandFrom([], args, app, user) == ExpandEvery([], args, app, user)
  {
    forall k: nat | k < |args| && PassedOver(args, user, k) ensures StaysTheSame(args[k], app, user) {
      IndexOfIs(args[k], '%', |args[k]|);
    }
    EveryArgumentIsExpanded(args, app, user);
  }

  /**
   Behind any prefix whose last argument is scanned: an erased or multiplied argument is followed verbatim by the
   next one, whatever that is, unless the prefix fails.
   */
  lemma {:induction false} NextArgumentIsPassedOver(done: seq<string>, before: seq<string>, arg: string, next: string,
                                                    rest: seq<string>, app: Application, user: string)
    returns (done': seq<string>)
    requires ErasesOrMultiplies(arg, user) && !PassedOver(before + [arg, next] + rest, user, |before|)
    ensures var e := EffectOf(arg, |done'| + 2 + |rest|, app, user);
            ExpandFrom(done, before + [arg, next] + rest, app, user).None?
            || (e.Become? && ExpandFrom(done, before + [arg, next] + rest, app, user)
                             == ExpandFrom(done' + e.args + [next], rest, app, user))
    decreases |before|
  {
    var all := before + [arg, next] + rest;
    done' := done;
    ExpandStride(done, all, app, user);
    var n := Stride(all, user);
    var e := EffectOf(all[0], |done| + |all|, app, user);
    if before == [] {
      assert all[..2] == [arg, next] && all[1..2] == [next] && all[2..] == rest;
      SizeMattersLittle(arg, |done| + |all|, app, user);
    } else if e.Become? {
      assert !PassedOver(all, user, 0);
      assert n <= |before|;
      assert all[n..] == before[n..] + [arg, next] + rest;
      assert !PassedOver(all, user, n);
      PassedOverInSuffix(all, user, n, |before| - n);
      done' := NextArgumentIsPassedOver(done + e.args + all[1..n], before[n..], arg, next, rest, app, user);
    }
  }

  /** The smallest such commands: an erased and a multiplied code, each followed by a code that stays unexpanded. */
  lemma NextCodeIsMissed(app: Application)
    ensures ExpandFrom([], ["%f", "%c"], app, "") == Some(["%c"])
    ensures ExpandFrom([], ["%f", "%c"], app, "x y") == Some(["x", "y", "%c"])
  {
    TwoWords();
    assert [] + ["x", "y"] + ["%c"] == ["x", "y", "%c"] && [] + [] + ["%c"] == ["%c"];
    assert EffectOf("%f", 2, app, "") == Become([], true);
    assert "" + "x" == "x" && "y" + "" == "y";
    assert EffectOf("%f", 2, app, "x y") == Become(["x", "y"], true);
    assert ["%f", "%c"][2..] == [];
  }

  // ---- several codes in one argument --------------------------------------------------------

  /** What a code inside an argument stands for, unless it stands for several words. */
  function CodeText(code: char, app: Application, user: string): Option<string> {
    if code == '%' then Some("%")
    else if code in "fFuU" then Some(if |UserWords(user)| == 1 then user else "")
    else if code == 'c' then Some(app.name)
    else if code == 'k' then Some(app.location)
    else if code in "idDnNvm" then Some(['%', code])
    else None
  }

  predicate StandsForSeveral(code: char, user: string) {
    code in "fFuU" && |UserWords(user)| >= 2
  }

  /** Text that continues the first of these strings. */
  function Join(text: string, parts: Option<seq<string>>): (r: Option<seq<string>>)
    requires parts.Some? ==> parts.value != []
    ensures r.Some? ==> r.value != []
  {
    if parts.None? then None else Some([text + parts.value[0]] + parts.value[1..])
  }

  /** The rest of an argument with every code expanded. The first string goes on with the text before it. */
  function EveryCode(s: string, app: Application, user: string): (r: Option<seq<string>>)
    ensures r.Some? ==> r.value != []
    decreases |s|
  {
    if s == "" then Some([""])
    else if s[0] != '%' then Join([s[0]], EveryCode(s[1..], app, user))
    else if |s| == 1 then None
    else if StandsForSeveral(s[1], user) then SeveralWords(UserWords(user), EveryCode(s[2..], app, user))
    else if CodeText(s[1], app, user).None? then None
    else Join(CodeText(s[1], app, user).value, EveryCode(s[2..], app, user))
  }

  function SeveralWords(words: seq<string>, parts: Option<seq<string>>): (r: Option<seq<string>>)
    requires |words| >= 2 && (parts.Some? ==> parts.value != [])
    ensures r.Some? ==> r.value != []
  {
    var n := |words| - 1;
    if parts.None? then None else Some(words[..n] + Join(words[n], parts).value)
  }

  /** An argument with every code expanded. */
  function EveryCodeOf(arg: string, app: Application, user: string): Option<seq<string>> {
    if |arg| == 2 && HasUserCode(arg) && UserWords(user) == [] then Some([]) else EveryCode(arg, app, user)
  }

  function ResultOf(e: Effect): Option<seq<string>> {
    if e.Throw? then None else Some(e.args)
  }

  lemma JoinTwice(a: string, b: string, parts: Option<seq<string>>)
    requires parts.Some? ==> parts.value != []
    ensures Join(a, Join(b, parts)) == Join(a + b, parts)
  {
    if parts.Some? {
      Assoc(a, b, parts.value[0]);
    }
  }

  lemma JoinNothing(parts: Option<seq<string>>)
    requires parts.Some? ==> parts.value != []
    ensures Join("", parts) == parts
  {
    if parts.Some? {
      Neutral(parts.value[0]);
      assert [parts.value[0]] + parts.value[1..] == parts.value;
    }
  }

  lemma {:induction false} EveryCodeBehindText(before: string, s: string, app: Application, user: string)
    requires '%' !in before
    ensures EveryCode(before + s, app, user) == Join(before, EveryCode(s, app, user))
  {
    if before == "" {
      Neutral(s);
      JoinNothing(EveryCode(s, app, user));
    } else {
      var c, rest := [before[0]], before[1..];
      assert before[0] in before && forall x <- rest :: x in before;
      EveryCodeBehindText(rest, s, app, user);
      assert (before + s)[1..] == rest + s && c + rest == before;
      JoinTwice(c, rest, EveryCode(s, app, user));
    }
  }

  lemma JoinsToOne(text: string, parts: Option<seq<string>>, kept: string)
    requires parts.Some? ==> parts.value != []
    ensures Join(text, parts) == Some([text + kept]) <==> parts == Some([kept])
  {
    if parts.Some? {
      SplitConcat(text, parts.value[0]);
      SplitConcat(text, kept);
      var joined := [text + parts.value[0]] + parts.value[1..];
      assert joined[0] == text + parts.value[0] && |joined| == |parts.value|;
      if |parts.value| == 1 {
        assert parts.value == [parts.value[0]] && joined == [text + parts.value[0]];
        assert [text + kept][0] == text + kept && [kept][0] == kept;
      }
    }
  }

  lemma JoinsToSeveral(text: string, words: seq<string>, parts: Option<seq<string>>, kept: string)
    requires |words| >= 2 && (parts.Some? ==> parts.value != [])
    ensures Join(text, SeveralWords(words, parts)) == Some(SpreadWords(text, words, kept)) <==> parts == Some([kept])
  {
    var n := |words| - 1;
    var front := [text + words[0]] + words[1..n];
    if parts.Some? {
      var all := words[..n] + Join(words[n], parts).value;
      assert [text + all[0]] + all[1..] == front + Join(words[n], parts).value;
      SplitConcat(front, Join(words[n], parts).value);
      SplitConcat(front, [words[n] + kept]);
      JoinsToOne(words[n], parts, kept);
    }
  }

  /** What is left of the text behind the first code. */
  function KeptTail(arg: string, size: nat, user: string): string {
    var pos := IndexOf(arg, '%');
    if pos + 2 > |arg| || (StandsForSeveral(arg[pos + 1], user) && size <= pos + 2) then "" else arg[pos + 2..]
  }

  /** Expanding the codes behind the first one would leave exactly what is left of them. */
  predicate TailIsDone(arg: string, size: nat, app: Application, user: string) {
    var pos := IndexOf(arg, '%');
    pos + 2 <= |arg| ==> EveryCode(arg[pos + 2..], app, user) == Some([KeptTail(arg, size, user)])
  }

  /**
   Only the first code of an argument is looked at. The argument comes out with every code expanded if and only if its
   first code is invalid, so that all fails, or expanding the text behind that code would give what is left of it.
   */
  lemma EveryCodeIsExpanded(arg: string, size: nat, app: Application, user: string)
    ensures ResultOf(EffectOf(arg, size, app, user)) == EveryCodeOf(arg, app, user)
            <==> EffectOf(arg, size, app, user).Throw? || TailIsDone(arg, size, app, user)
  {
    var pos := IndexOf(arg, '%');
    NoCodeBefore(arg);
    var before, tail := arg[..pos], arg[pos..];
    assert arg == before + tail;
    EveryCodeBehindText(before, tail, app, user);
    if pos == |arg| {
      Neutral(arg);
      assert before == arg && tail == "";
      JoinsToOne(arg, EveryCode("", app, user), "");
    } else if pos + 2 <= |arg| {
      FirstCodeDecides(arg, size, app, user);
    }
  }

  lemma {:induction false} NoCodeBefore(arg: string)
    ensures '%' !in arg[..IndexOf(arg, '%')]
  {
    if arg != "" && arg[0] != '%' {
      NoCodeBefore(arg[1..]);
      var k := IndexOf(arg, '%');
      assert arg[..k] == [arg[0]] + arg[1..][..k - 1];
    }
  }

  lemma FirstCodeDecides(arg: string, size: nat, app: Application, user: string)
    requires var pos := IndexOf(arg, '%');
             pos + 2 <= |arg| && EveryCode(arg, app, user) == Join(arg[..pos], EveryCode(arg[pos..], app, user))
    ensures ResultOf(EffectOf(arg, size, app, user)) == EveryCodeOf(arg, app, user)
            <==> EffectOf(arg, size, app, user).Throw? || TailIsDone(arg, size, app, user)
  {
    var pos, kept := IndexOf(arg, '%'), KeptTail(arg, size, user);
    var before, code, tail := arg[..pos], arg[pos + 1], arg[pos + 2..];
    var parts := EveryCode(tail, app, user);
    assert arg[pos..][1] == code && arg[pos..][2..] == tail;
    if StandsForSeveral(code, user) {
      JoinsToSeveral(before, UserWords(user), parts, kept);
    } else if CodeText(code, app, user).Some? {
      var text := CodeText(code, app, user).value;
      JoinTwice(before, text, parts);
      JoinsToOne(before + text, parts, kept);
      OneCodeResult(arg, size, app, user, before, text, tail);
    }
  }

  /** The effect of a code that does not stand for several words. */
  lemma OneCodeResult(arg: string, size: nat, app: Application, user: string, before: string, text: string,
                      after: string)
    requires HasCodeAt(arg, before, after) && !StandsForSeveral(arg[|before| + 1], user)
    requires CodeText(arg[|before| + 1], app, user) == Some(text)
    ensures ResultOf(EffectOf(arg, size, app, user))
         == Some(if |arg| == 2 && HasUserCode(arg) && UserWords(user) == [] then [] else [before + text + after])
  {
    if HasUserCode(arg) {
      UserCodeResult(arg, size, app, user, before, after);
    } else {
      OtherCodeResult(arg, size, app, user, before, text, after);
    }
  }

  /** The argument's first code stands between these texts. */
  predicate HasCodeAt(arg: string, before: string, after: string) {
    var pos := IndexOf(arg, '%');
    pos + 2 <= |arg| && before == arg[..pos] && after == arg[pos + 2..]
  }

  lemma OtherCodeResult(arg: string, size: nat, app: Application, user: string, before: string, text: string,
                        after: string)
    requires HasCodeAt(arg, before, after) && !HasUserCode(arg)
    requires CodeText(arg[|before| + 1], app, user) == Some(text)
    ensures EffectOf(arg, size, app, user) == Become([before + text + after], false)
  {
    CodeInArgument(arg, |before|);
  }

  lemma UserCodeResult(arg: string, size: nat, app: Application, user: string, before: string, after: string)
    requires HasCodeAt(arg, before, after) && HasUserCode(arg) && |UserWords(user)| < 2
    ensures var words := UserWords(user);
            if words == [] && |arg| == 2 then EffectOf(arg, size, app, user) == Become([], true)
            else EffectOf(arg, size, app, user) == Become([before + (if words == [] then "" else user) + after], false)
  {
    Neutral(before);
  }

  lemma CodeInArgument(arg: string, pos: nat)
    requires pos + 2 <= |arg| && arg[pos] == '%'
    ensures arg[..pos] + ['%', arg[pos + 1]] + arg[pos + 2..] == arg
  {
  }

  /** The smallest such argument: the second code stays. */
  lemma SecondCodeIsNotExpanded(app: Application)
    requires app.location != "%k"
    ensures ResultOf(EffectOf("%c-%k", 1, app, "")) == Some([app.name + "-%k"])
    ensures ResultOf(EffectOf("%c-%k", 1, app, "")) != EveryCodeOf("%c-%k", app, "")
  {
    var arg := "%c-%k";
    assert arg[2..] == "-%k" && "-%k"[1..] == "%k" && "%k"[2..] == "";
    Neutral(app.location);
    assert EveryCode("%k", app, "") == Join(app.location, EveryCode("%k"[2..], app, ""));
    JoinsToOne(app.location, EveryCode("", app, ""), "");
    assert EveryCode("-%k", app, "") == Join("-", EveryCode("%k", app, ""));
    JoinsToOne("-", EveryCode("%k", app, ""), "%k");
    assert "-%k" == "-" + "%k";
    assert "" + app.name + "-%k" == app.name + "-%k";
    EveryCodeIsExpanded(arg, 1, app, "");
  }

  /** Every argument with every code expanded. */
  function EveryCodeOfAll(args: seq<string>, app: Application, user: string): Option<seq<string>> {
    if args == [] then Some([])
    else
      var first, rest := EveryCodeOf(args[0], app, user), EveryCodeOfAll(args[1..], app, user);
      if first.None? || rest.None? then None else Some(first.value + rest.value)
  }

  /**
   As long as no argument is erased or multiplied, the whole command comes out with every code of every argument
   expanded if and only if it fails anyway or the text behind the first code of each argument is done.
   */
  lemma EveryCodeOfCommand(args: seq<string>, app: Application, user: string)
    requires forall arg <- args :: StaysOne(arg, user)
    ensures ExpandFrom([], args, app, user) == EveryCodeOfAll(args, app, user)
            <==> || ExpandFrom([], args, app, user).None?
                 || forall arg <- args :: TailIsDone(arg, 0, app, user)
  {
    EachArgumentByItself([], args, app, user);
    var each := EachExpanded(args, app, user);
    if each.Some? {
      Neutral(each.value);
    }
    EachCodeOfEach(args, app, user);
  }

  lemma {:induction false} EachCodeOfEach(args: seq<string>, app: Application, user: string)
    requires forall arg <- args :: StaysOne(arg, user)
    ensures var each, every := EachExpanded(args, app, user), EveryCodeOfAll(args, app, user);
            && (each == every <==> each.None? || forall arg <- args :: TailIsDone(arg, 0, app, user))
            && (each.Some? ==> |each.value| == |args|)
            && (every.Some? ==> |every.value| >= |args|)
  {
    if args != [] {
      var arg, rest := args[0], args[1..];
      assert forall x <- rest :: x in args;
      assert args == [arg] + rest;
      OneForOne(arg, 0, app, user);
      EachCodeOfEach(rest, app, user);
      EveryCodeIsExpanded(arg, 0, app, user);
      var e, every := EffectOf(arg, 0, app, user), EveryCodeOf(arg, app, user);
      var restEach, restEvery := EachExpanded(rest, app, user), EveryCodeOfAll(rest, app, user);
      if e.Become? && every.Some? && restEach.Some? && restEvery.Some? {
        FirstOfEach(e.args, every.value, restEach.value, restEvery.value);
      }
    }
  }

  lemma FirstOfEach(a: seq<string>, b: seq<string>, x: seq<string>, y: seq<string>)
    requires |a| == 1 <= |b| && |x| <= |y|
    ensures a + x == b + y <==> a == b && x == y
  {
    if a + x == b + y {
      assert |b| == 1;
      SplitConcat(a, x);
      SplitConcat(b, y);
    }
  }

  // ---- what each code means -----------------------------------------------------------------

  /** The codes that do not take the user's words, in any argument and at any size of the command. */
  lemma CodesMean(before: string, code: char, after: string, size: nat, app: Application, user: string)
    requires '%' !in before && code != 'f' && code != 'F' && code != 'u' && code != 'U'
    ensures var arg := before + ['%', code] + after;
            EffectOf(arg, size, app, user)
            == if code == '%' then Become([before + "%" + after], false)
               else if code == 'c' then Become([before + app.name + after], false)
               else if code == 'k' then Become([before + app.location + after], false)
               else if code == 'i' || code == 'd' || code == 'D' || code == 'n' || code == 'N' then Become([arg], false)
               else if code == 'v' || code == 'm' then Become([arg], false)
               else Throw
  {
    var arg := before + ['%', code] + after;
    FirstCode(before, arg);
    assert arg[..|before|] == before && arg[|before| + 1] == code && arg[|before| + 2..] == after;
  }

  /** A percent sign at the end is an error. */
  lemma LonePercentThrows(before: string, size: nat, app: Application, user: string)
    requires '%' !in before
    ensures EffectOf(before + "%", size, app, user) == Throw
  {
    FirstCode(before, before + "%");
  }
}
