/** src/DynamicCompare.hh: the two orders of displayed names. */
module DynamicCompare {
  import opened Utilities

  /** `a < b` on strings. */
  predicate Less(a: string, b: string) {
    b != "" && (a == "" || a[0] < b[0] || (a[0] == b[0] && Less(a[1..], b[1..])))
  }

  /** `tolower` in the C locale. */
  function Lower(c: char): char {
    if 'A' <= c <= 'Z' then c + ('a' - 'A') else c
  }

  function Lowered(s: string): (r: string)
    ensures |r| == |s|
  {
    if s == "" then "" else [Lower(s[0])] + Lowered(s[1..])
  }

  /** `strncasecmp` on strings without NUL. */
  function Strncasecmp(a: string, b: string, n: nat): int
    requires n <= |a| && n <= |b|
  {
    if n == 0 then 0
    else if Lower(a[0]) == Lower(b[0]) then Strncasecmp(a[1..], b[1..], n - 1)
    else Lower(a[0]) as int - Lower(b[0]) as int
  }

  function StrcasecmpLess(a: string, b: string): bool {
    var min := if |a| < |b| then |a| else |b|;
    var result := Strncasecmp(a, b, min);
    if result == 0 then |a| < |b| else result < 0
  }

  /** The comparison chosen at construction. */
  predicate Before(caseInsensitive: bool, a: string, b: string) {
    if caseInsensitive then StrcasecmpLess(a, b) else Less(a, b)
  }

  /** What the comparison sees of a string. */
  function Key(caseInsensitive: bool, s: string): string {
    if caseInsensitive then Lowered(s) else s
  }

  lemma {:induction false} LessIsTotal(a: string, b: string)
    ensures Less(a, b) || Less(b, a) || a == b
    ensures !(Less(a, b) && Less(b, a)) && !Less(a, a)
  {
    if a != "" && b != "" && a[0] == b[0] {
      LessIsTotal(a[1..], b[1..]);
      assert a == [a[0]] + a[1..] && b == [b[0]] + b[1..];
    }
    if a != "" {
      LessIsTotal(a[1..], a[1..]);
    }
  }

  lemma {:induction false} LessIsTransitive(a: string, b: string, c: string)
    requires Less(a, b) && Less(b, c)
    ensures Less(a, c)
  {
    if a != "" && a[0] == b[0] == c[0] {
      LessIsTransitive(a[1..], b[1..], c[1..]);
    }
  }

  lemma {:induction false} StrcasecmpIsLess(a: string, b: string)
    ensures StrcasecmpLess(a, b) <==> Less(Lowered(a), Lowered(b))
  {
    if a != "" && b != "" {
      StrcasecmpIsLess(a[1..], b[1..]);
      assert Lowered(a)[1..] == Lowered(a[1..]) && Lowered(b)[1..] == Lowered(b[1..]);
    }
  }

  /** Both comparisons are strict orders that identify exactly the strings with equal keys. */
  lemma BeforeIsStrictOrder(ci: bool, a: string, b: string, c: string)
    ensures !Before(ci, a, a)
    ensures Before(ci, a, b) && Before(ci, b, c) ==> Before(ci, a, c)
    ensures !Before(ci, a, b) && !Before(ci, b, a) <==> Key(ci, a) == Key(ci, b)
  {
    var ka, kb, kc := Key(ci, a), Key(ci, b), Key(ci, c);
    if ci {
      StrcasecmpIsLess(a, a);
      StrcasecmpIsLess(a, b);
      StrcasecmpIsLess(b, a);
      StrcasecmpIsLess(b, c);
      StrcasecmpIsLess(a, c);
    }
    LessIsTotal(ka, kb);
    LessIsTotal(ka, ka);
    if Less(ka, kb) && Less(kb, kc) {
      LessIsTransitive(ka, kb, kc);
    }
  }

  lemma {:induction false} PrefixIsLess(a: string, b: string)
    requires StartsWith(b, a) && a != b
    ensures Less(a, b)
  {
    if a != "" {
      assert b[1..][..|a| - 1] == a[1..];
      assert a == [a[0]] + a[1..] && b == [b[0]] + b[1..];
      assert b[0] == b[..|a|][0];
      PrefixIsLess(a[1..], b[1..]);
    }
  }

  lemma {:induction false} LoweredTake(s: string, n: nat)
    requires n <= |s|
    ensures Lowered(s[..n]) == Lowered(s)[..n]
  {
    if n > 0 {
      LoweredTake(s[1..], n - 1);
      assert s[..n][1..] == s[1..][..n - 1];
    }
  }

  /** A proper prefix comes first in both orders. */
  lemma PrefixComesFirst(ci: bool, a: string, b: string)
    requires StartsWith(b, a) && a != b
    ensures Before(ci, a, b)
  {
    if ci {
      LoweredTake(b, |a|);
      StrcasecmpIsLess(a, b);
      PrefixIsLess(Lowered(a), Lowered(b));
    } else {
      PrefixIsLess(a, b);
    }
  }

  /** The first difference decides, by the smaller character. */
  lemma {:induction false} FirstDifferenceDecides(common: string, x: char, y: char, a: string, b: string)
    requires x < y
    ensures Less(common + [x] + a, common + [y] + b)
  {
    var left, right := common + [x] + a, common + [y] + b;
    if common != "" {
      FirstDifferenceDecides(common[1..], x, y, a, b);
      assert left[1..] == common[1..] + [x] + a && right[1..] == common[1..] + [y] + b;
    }
  }

  /** Upper-case letters count as the lower-case ones at the same place of the alphabet, and nothing else changes. */
  lemma LowerMeans(k: nat, c: char)
    requires k < 26
    ensures Lower('A' + k as char) == 'a' + k as char
    ensures c < 'A' || 'Z' < c ==> Lower(c) == c
  {
  }

  lemma {:induction false} LoweredConcat(a: string, b: string)
    ensures Lowered(a + b) == Lowered(a) + Lowered(b)
  {
    if a == "" {
      assert a + b == b && Lowered(a) + Lowered(b) == Lowered(b);
    } else {
      LoweredConcat(a[1..], b);
      assert (a + b)[1..] == a[1..] + b;
    }
  }

  /** In case-insensitive mode the smaller lower-case character decides, behind any prefixes equal up to case. */
  lemma FirstDifferenceIgnoringCase(common: string, common': string, x: char, y: char, a: string, b: string)
    requires Lowered(common) == Lowered(common') && Lower(x) < Lower(y)
    ensures Before(true, common + [x] + a, common' + [y] + b)
  {
    LoweredConcat(common + [x], a);
    LoweredConcat(common, [x]);
    LoweredConcat(common' + [y], b);
    LoweredConcat(common', [y]);
    assert Lowered([x]) == [Lower(x)] && Lowered([y]) == [Lower(y)];
    FirstDifferenceDecides(Lowered(common), Lower(x), Lower(y), Lowered(a), Lowered(b));
    StrcasecmpIsLess(common + [x] + a, common' + [y] + b);
  }
}
