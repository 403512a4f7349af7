/** src/Formatters.cc: what is displayed for a name. */
module Formatters {
  import opened Utilities
  import opened Applications

  datatype Formatter = Default | WithBinaryName | WithBaseBinaryName

  /** `exec.find(' ')`, the length standing for `npos`. */
  function FindSpace(s: string): (i: nat)
    ensures i <= |s| && (i < |s| ==> s[i] == ' ')
    ensures ' ' !in s[..i]
  {
    if s == "" || s[0] == ' ' then 0
    else
      var i := 1 + FindSpace(s[1..]);
      assert s[..i] == [s[0]] + s[1..][..i - 1];
      i
  }

  /** One past the last '/' before position `end`, 0 if there is none. */
  function AfterLastSlash(s: string, end: nat): (i: nat)
    requires end <= |s|
    ensures i <= end && forall k :: i <= k < end ==> s[k] != '/'
    ensures i > 0 ==> s[i - 1] == '/'
  {
    if end == 0 || s[end - 1] == '/' then end else AfterLastSlash(s, end - 1)
  }

  /** The first word of the command, without or with its directory. */
  function Binary(f: Formatter, exec: string): string {
    var end := FindSpace(exec);
    if f.WithBaseBinaryName? then exec[AfterLastSlash(exec, end)..end] else exec[..end]
  }

  function Format(f: Formatter, name: string, app: Application): string {
    if f.Default? then name else name + " (" + Binary(f, app.exec) + ")"
  }

  lemma BinaryHasNoSpace(f: Formatter, exec: string)
    ensures ' ' !in Binary(f, exec)
  {
    var end := FindSpace(exec);
    var binary := Binary(f, exec);
    forall i | 0 <= i < |binary| ensures binary[i] != ' ' {
      assert binary[i] in exec[..end] by {
        var from := if f.WithBaseBinaryName? then AfterLastSlash(exec, end) else 0;
        assert binary[i] == exec[..end][from + i];
      }
    }
  }

  /** Different names are displayed differently, whatever the applications and even if a name looks formatted. */
  lemma FormatIsInjective(f: Formatter, name1: string, app1: Application, name2: string, app2: Application)
    requires Format(f, name1, app1) == Format(f, name2, app2)
    ensures name1 == name2
  {
    if !f.Default? {
      var b1, b2 := Binary(f, app1.exec), Binary(f, app2.exec);
      var text := Format(f, name1, app1);
      BinaryHasNoSpace(f, app1.exec);
      BinaryHasNoSpace(f, app2.exec);
      LastSpace(name1, b1, text);
      LastSpace(name2, b2, text);
      assert |name1| == |name2|;
      assert name1 == text[..|name1|] && name2 == text[..|name2|];
    }
  }

  /** The last space of a formatted name is the one before the parenthesis. */
  lemma LastSpace(name: string, binary: string, text: string)
    requires text == name + " (" + binary + ")" && ' ' !in binary
    ensures |name| < |text| && text[|name|] == ' '
    ensures forall i :: |name| < i < |text| ==> text[i] != ' '
  {
    forall i | |name| < i < |text| ensures text[i] != ' ' {
      if |name| + 2 <= i < |text| - 1 {
        assert text[i] == binary[i - |name| - 2];
      }
    }
  }

  lemma {:induction false} FirstSpace(word: string, rest: string)
    requires ' ' !in word && (rest == "" || rest[0] == ' ')
    ensures FindSpace(word + rest) == |word|
  {
    if word == "" {
      assert word + rest == rest;
    } else {
      assert word[0] in word && forall c <- word[1..] :: c in word;
      assert (word + rest)[1..] == word[1..] + rest;
      FirstSpace(word[1..], rest);
    }
  }

  lemma {:induction false} LastSlash(exec: string, from: nat, end: nat)
    requires from <= end <= |exec| && (forall k :: from <= k < end ==> exec[k] != '/')
    requires from > 0 ==> exec[from - 1] == '/'
    ensures AfterLastSlash(exec, end) == from
  {
    if from < end {
      LastSlash(exec, from, end - 1);
    }
  }

  /** What the three formatters display for a command with or without directory and arguments. */
  lemma FormatsMean(name: string, app: Application, dir: string, base: string, rest: string)
    requires app.exec == dir + base + rest && (dir == "" || dir[|dir| - 1] == '/')
    requires ' ' !in dir && ' ' !in base && '/' !in base && (rest == "" || rest[0] == ' ')
    ensures Format(Default, name, app) == name
    ensures Format(WithBinaryName, name, app) == name + " (" + (dir + base) + ")"
    ensures Format(WithBaseBinaryName, name, app) == name + " (" + base + ")"
  {
    var exec, word := app.exec, dir + base;
    FirstSpace(word, rest);
    SplitConcat(word, rest);
    forall k | |dir| <= k < |word| ensures exec[k] != '/' {
      assert exec[k] == base[k - |dir|] && base[k - |dir|] in base;
    }
    LastSlash(exec, |dir|, |word|);
    assert exec[|dir|..|word|] == base;
  }
}
