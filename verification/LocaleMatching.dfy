/** src/LocaleSuffixes.cc: the locale names that a localized key may carry, best match first. */
module LocaleMatching {
  import opened Utilities

  /** Position of the last `c`; 0 also when there is none, as in the source. */
  function LastIndex(s: string, c: char): (r: nat)
    ensures s != "" ==> r < |s|
  {
    if s == "" then 0
    else if s[|s| - 1] == c then |s| - 1
    else LastIndex(s[..|s| - 1], c)
  }

  /** `substr(0, n)` */
  function Take(s: string, n: nat): string {
    if n <= |s| then s[..n] else s
  }

  /** What the constructor makes of any text, by the positions of the last `_`, `.` and `@`. */
  function Suffixes(text: string): (r: seq<string>)
    ensures r != []
  {
    var us, dot, at := LastIndex(text, '_'), LastIndex(text, '.'), LastIndex(text, '@');
    if dot == 0 then SuffixesAt(text, us, at)
    else if at == 0 then SuffixesAt(text[..dot], us, 0)
    else SuffixesAt(text[..dot] + (if dot <= at then text[at..] else ""), us, dot)
  }

  function SuffixesAt(locale: string, us: nat, at: nat): (r: seq<string>)
    requires at <= |locale|
    ensures r != []
  {
    if us == 0 && at == 0 then [locale]
    else if us != 0 && at != 0 then [locale, locale[..at], Take(locale, us) + locale[at..], Take(locale, us)]
    else [locale, Take(locale, if at == 0 then us else at)]
  }

  /** The loop over the locale. */
  method FindMarks(locale: string) returns (uscorepos: nat, dotpos: nat, atpos: nat)
    ensures uscorepos == LastIndex(locale, '_')
    ensures dotpos == LastIndex(locale, '.')
    ensures atpos == LastIndex(locale, '@')
  {
    uscorepos, dotpos, atpos := 0, 0, 0;
    for i := 0 to |locale|
      invariant uscorepos == LastIndex(locale[..i], '_')
      invariant dotpos == LastIndex(locale[..i], '.')
      invariant atpos == LastIndex(locale[..i], '@')
    {
      assert locale[..i + 1][..i] == locale[..i];
      if locale[i] == '_' {
        uscorepos := i;
      } else if locale[i] == '.' {
        dotpos := i;
      } else if locale[i] == '@' {
        atpos := i;
      }
    }
    assert locale[..|locale|] == locale;
  }

  class LocaleSuffixes {
    var suffixes: array<string>
    var length: nat

    ghost predicate Valid()
      reads this
    {
      suffixes.Length == 4 && length <= 4
    }

    ghost function Candidates(): seq<string>
      requires Valid()
      reads this, suffixes
    {
      suffixes[..length]
    }

    constructor (text: string)
      ensures Valid() && fresh(suffixes) && Candidates() == Suffixes(text)
    {
      suffixes := new string[4](_ => "");
      length := 4;
      new;
      var locale := text;
      var uscorepos, dotpos, atpos := FindMarks(locale);
      if dotpos != 0 {
        if atpos == 0 {
          locale := locale[..dotpos];
        } else {
          locale := locale[..dotpos] + (if dotpos <= atpos then locale[atpos..] else "");
          atpos := dotpos;
        }
      }
      suffixes[0] := locale;
      if uscorepos == 0 && atpos == 0 {
        length := 1;
        return;
      }
      if uscorepos != 0 && atpos != 0 {
        suffixes[1] := locale[..atpos];
        suffixes[2] := Take(locale, uscorepos) + locale[atpos..];
        suffixes[3] := Take(locale, uscorepos);
      } else {
        length := 2;
        suffixes[1] := Take(locale, if atpos == 0 then uscorepos else atpos);
      }
    }

    /** `match` */
    method Match(str: string) returns (r: int)
      requires Valid()
      ensures r == FirstIndex(Candidates(), str)
    {
      for i := 0 to length
        invariant forall k :: 0 <= k < i ==> suffixes[k] != str
      {
        if suffixes[i] == str {
          FirstIndexIs(Candidates(), str, i);
          return i;
        }
      }
      FirstIndexIs(Candidates(), str, -1);
      return -1;
    }
  }

  /** Index of the first occurrence, or -1. */
  function FirstIndex(s: seq<string>, x: string): (r: int)
    ensures -1 <= r < |s|
    ensures r == -1 <==> x !in s
    ensures r >= 0 ==> s[r] == x
    ensures forall k :: 0 <= k < r ==> s[k] != x
  {
    if s == [] then -1
    else if s[0] == x then 0
    else
      var r := FirstIndex(s[1..], x);
      if r == -1 then -1 else r + 1
  }

  lemma FirstIndexIs(s: seq<string>, x: string, r: int)
    requires -1 <= r < |s|
    requires if r == -1 then x !in s else s[r] == x && forall k :: 0 <= k < r ==> s[k] != x
    ensures FirstIndex(s, x) == r
  {
  }

  // ------------------------------------------------------------------------------------------
  // Section 5 of the Desktop Entry Specification
  // ------------------------------------------------------------------------------------------

  /** lang[_COUNTRY][.ENCODING][@MODIFIER] */
  datatype Locale = Locale(lang: string, country: Option<string>, encoding: Option<string>, modifier: Option<string>)

  predicate PlainPart(s: string) {
    '_' !in s && '.' !in s && '@' !in s
  }

  predicate WellFormed(l: Locale) {
    && l.lang != "" && PlainPart(l.lang)
    && (l.country.Some? ==> PlainPart(l.country.value))
    && (l.encoding.Some? ==> PlainPart(l.encoding.value))
    && (l.modifier.Some? ==> PlainPart(l.modifier.value))
  }

  function Part(mark: char, part: Option<string>): string {
    if part.None? then "" else [mark] + part.value
  }

  function LocaleText(l: Locale): string {
    l.lang + Part('_', l.country) + Part('.', l.encoding) + Part('@', l.modifier)
  }

  /** The keys to look for, in order of preference; the encoding is ignored. */
  function MatchingOrder(l: Locale): seq<string> {
    var country, modifier := Part('_', l.country), Part('@', l.modifier);
    match (l.country, l.modifier)
    case (Some(_), Some(_)) => [l.lang + country + modifier, l.lang + country, l.lang + modifier, l.lang]
    case (Some(_), None) => [l.lang + country, l.lang]
    case (None, Some(_)) => [l.lang + modifier, l.lang]
    case (None, None) => [l.lang]
  }

  lemma {:induction false} LastIndexOf(before: string, c: char, after: string)
    requires c !in after
    ensures LastIndex(before + [c] + after, c) == |before|
    decreases |after|
  {
    var s := before + [c] + after;
    if after == "" {
      assert s[|s| - 1] == c;
    } else {
      assert s[|s| - 1] == after[|after| - 1] && after[|after| - 1] in after;
      assert s[..|s| - 1] == before + [c] + after[..|after| - 1];
      LastIndexOf(before, c, after[..|after| - 1]);
    }
  }

  lemma {:induction false} LastIndexOfNone(s: string, c: char)
    requires c !in s
    ensures LastIndex(s, c) == 0
  {
    if s != "" {
      assert s[|s| - 1] in s;
      LastIndexOfNone(s[..|s| - 1], c);
    }
  }

  /** The position of an optional part is found from behind, over parts that do not contain its mark. */
  lemma LastIndexOfPart(before: string, mark: char, part: Option<string>, after: string)
    requires mark !in after && mark !in before && (part.Some? ==> mark !in part.value)
    ensures LastIndex(before + Part(mark, part) + after, mark) == if part.Some? then |before| else 0
  {
    var s := before + Part(mark, part) + after;
    if part.Some? {
      assert s == before + [mark] + (part.value + after);
      LastIndexOf(before, mark, part.value + after);
    } else {
      LastIndexOfNone(s, mark);
    }
  }

  lemma MarkPositions(l: Locale)
    requires WellFormed(l)
    ensures var country, encoding := l.lang + Part('_', l.country), Part('.', l.encoding);
            && LastIndex(LocaleText(l), '_') == (if l.country.Some? then |l.lang| else 0)
            && LastIndex(LocaleText(l), '.') == (if l.encoding.Some? then |country| else 0)
            && LastIndex(LocaleText(l), '@') == (if l.modifier.Some? then |country + encoding| else 0)
  {
    var text := LocaleText(l);
    var country, encoding, modifier := Part('_', l.country), Part('.', l.encoding), Part('@', l.modifier);
    assert text == l.lang + country + (encoding + modifier);
    LastIndexOfPart(l.lang, '_', l.country, encoding + modifier);
    LastIndexOfPart(l.lang + country, '.', l.encoding, modifier);
    assert text == (l.lang + country + encoding) + modifier + "";
    LastIndexOfPart(l.lang + country + encoding, '@', l.modifier, "");
  }

  /** Removing the encoding leaves the rest in place. */
  lemma EncodingIsStripped(l: Locale)
    requires WellFormed(l)
    ensures var country := l.lang + Part('_', l.country);
            Suffixes(LocaleText(l)) == SuffixesAt(country + Part('@', l.modifier),
                                                  if l.country.Some? then |l.lang| else 0,
                                                  if l.modifier.Some? then |country| else 0)
  {
    MarkPositions(l);
    var text := LocaleText(l);
    var country, encoding, modifier := l.lang + Part('_', l.country), Part('.', l.encoding), Part('@', l.modifier);
    if l.encoding.None? {
      assert country + encoding == country;
    } else {
      assert text[..|country|] == country;
      assert l.modifier.None? ==> country + modifier == country;
      assert text[|country + encoding|..] == modifier;
    }
  }

  /** For every well-formed locale the constructor's candidates are those of the specification, in its order. */
  lemma SuffixesFollowSpecification(l: Locale)
    requires WellFormed(l)
    ensures Suffixes(LocaleText(l)) == MatchingOrder(l)
  {
    EncodingIsStripped(l);
    var country, modifier := l.lang + Part('_', l.country), Part('@', l.modifier);
    var locale := country + modifier;
    assert locale[..|l.lang|] == l.lang && locale[..|country|] == country && locale[|country|..] == modifier;
    assert l.country.None? ==> country == l.lang;
    assert l.modifier.None? ==> locale == country;
  }
}
