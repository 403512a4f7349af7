/** Small shared vocabulary: optional values and the string tests of src/Utilities.cc. */
module Utilities {

  datatype Option<+T> = None | Some(value: T)

  /** The text handed around as `const char *`: it has no NUL inside. */
  type CString = s: string | '\0' !in s

  predicate StartsWith(str: string, prefix: string) {
    |prefix| <= |str| && str[..|prefix|] == prefix
  }

  predicate EndsWith(str: string, suffix: string) {
    |suffix| <= |str| && str[|str| - |suffix|..] == suffix
  }

  lemma Assoc<T>(a: seq<T>, b: seq<T>, c: seq<T>)
    ensures a + b + c == a + (b + c)
  {
  }

  lemma SplitConcat<T>(a: seq<T>, b: seq<T>)
    ensures (a + b)[..|a|] == a && (a + b)[|a|..] == b
  {
  }

  lemma Neutral<T>(a: seq<T>)
    ensures a + [] == a && [] + a == a
  {
  }

  /** One more element at a position. */
  function InsertAt<T>(s: seq<T>, at: nat, x: T): (r: seq<T>)
    requires at <= |s|
  {
    seq(|s| + 1, k requires 0 <= k <= |s| => if k < at then s[k] else if k == at then x else s[k - 1])
  }

  /** One element less. */
  function EraseAt<T>(s: seq<T>, i: nat): seq<T>
    requires i < |s|
  {
    seq(|s| - 1, k requires 0 <= k < |s| - 1 => if k < i then s[k] else s[k + 1])
  }

  lemma ElementsAfterInsert<T>(s: seq<T>, at: nat, x: T)
    requires at <= |s|
    ensures forall y :: y in InsertAt(s, at, x) <==> y in s || y == x
  {
    var r := InsertAt(s, at, x);
    assert r[at] == x;
    forall y | y in s ensures y in r {
      var k :| 0 <= k < |s| && s[k] == y;
      assert r[if k < at then k else k + 1] == y;
    }
  }

  lemma ElementsBeforeErase<T>(s: seq<T>, i: nat)
    requires i < |s|
    ensures multiset(s) == multiset(EraseAt(s, i)) + multiset{s[i]}
    ensures forall y :: y in s <==> y in EraseAt(s, i) || y == s[i]
  {
    var r := EraseAt(s, i);
    assert r == s[..i] + s[i + 1..];
    assert s == s[..i] + [s[i]] + s[i + 1..];
  }

  /** No value occurs twice. */
  ghost predicate Distinct<T>(s: seq<T>) {
    forall i, j :: 0 <= i < j < |s| ==> s[i] != s[j]
  }
}
