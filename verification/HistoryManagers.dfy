/** src/HistoryManager.cc: how often each name was chosen, most frequent first, and the file that keeps it. */
module HistoryManagers {
  import opened Utilities
  import opened Applications
  import opened AppManagers

  /** One element of the `multimap<int, string, greater<int>>`; the map is the sequence of its elements. */
  datatype Entry = Entry(count: int, name: string)
  type History = seq<Entry>

  ghost predicate Sorted(h: History) {
    forall i, j :: 0 <= i < j < |h| ==> h[i].count >= h[j].count
  }

  ghost predicate UniqueNames(h: History) {
    forall i, j :: 0 <= i < j < |h| ==> h[i].name != h[j].name
  }

  predicate Has(h: History, name: string) {
    exists e <- h :: e.name == name
  }

  /** Where `emplace` puts a new element: after all elements that are not smaller. */
  function UpperBound(h: History, count: int): (i: nat)
    ensures i <= |h|
    ensures i < |h| ==> h[i].count < count
    ensures forall k :: 0 <= k < i ==> h[k].count >= count
  {
    UpperBoundFrom(h, count, 0)
  }

  function UpperBoundFrom(h: History, count: int, from: nat): (i: nat)
    requires from <= |h|
    ensures from <= i <= |h|
    ensures i < |h| ==> h[i].count < count
    ensures forall k :: from <= k < i ==> h[k].count >= count
    decreases |h| - from
  {
    if from == |h| || h[from].count < count then from else UpperBoundFrom(h, count, from + 1)
  }

  function Insert(h: History, e: Entry): History {
    InsertAt(h, UpperBound(h, e.count), e)
  }

  /** Index of the first element with the name, or the length. */
  function IndexOfName(h: History, name: string): (i: nat)
    ensures i <= |h|
    ensures i < |h| ==> h[i].name == name
    ensures forall k :: 0 <= k < i ==> h[k].name != name
  {
    IndexOfNameFrom(h, name, 0)
  }

  function IndexOfNameFrom(h: History, name: string, from: nat): (i: nat)
    requires from <= |h|
    ensures from <= i <= |h|
    ensures i < |h| ==> h[i].name == name
    ensures forall k :: from <= k < i ==> h[k].name != name
    decreases |h| - from
  {
    if from == |h| || h[from].name == name then from else IndexOfNameFrom(h, name, from + 1)
  }

  /** The count of a name, 0 if it has never been chosen. */
  function CountOf(h: History, name: string): int {
    var i := IndexOfName(h, name);
    if i < |h| then h[i].count else 0
  }

  function WithoutName(h: History, name: string): History {
    var i := IndexOfName(h, name);
    if i == |h| then h else EraseAt(h, i)
  }

  /** The history after one more choice of `name`. */
  function Incremented(h: History, name: string): History {
    Insert(WithoutName(h, name), Entry(CountOf(h, name) + 1, name))
  }

  /** The body of `increment`: find the name, insert the larger element, erase the old one. */
  method CountUp(before: History, name: string) returns (history: History)
    requires Sorted(before)
    ensures history == Incremented(before, name)
  {
    history := before;
    var result := 0;
    while result < |history| && history[result].name != name
      invariant result <= |history|
      invariant forall k :: 0 <= k < result ==> history[k].name != name
    {
      result := result + 1;
    }
    FirstWithName(history, name, result);
    if result == |history| {
      history := Insert(history, Entry(1, name));
    } else {
      EmplaceThenErase(history, name, result);
      history := Insert(history, Entry(history[result].count + 1, name));
      history := EraseAt(history, result + 1);
    }
  }

  class HistoryManager {
    var history: History
    var file: string

    ghost predicate Valid()
      reads this
    {
      Sorted(history) && UniqueNames(history) && CountsFit(history) && Saved(history, file)
    }

    constructor (h: History)
      requires Sorted(h) && UniqueNames(h) && CountsFit(h)
      ensures Valid() && history == h && file == FileText(h)
    {
      history := h;
      file := FileText(h);
    }

    /** The constructor on an existing file that it accepts. */
    constructor FromFile(text: string)
      requires Open(text).Some? && UniqueNames(Open(text).value)
      ensures Valid() && Open(text) == Some(history) && file == text
    {
      OpenedHistoryIsSorted(text);
      history := Open(text).value;
      file := text;
    }

    /** `increment` */
    method Increment(name: string)
      requires Valid() && CountOf(history, name) < INT_MAX
      modifies this
      ensures Valid()
      ensures history == Incremented(old(history), name)
      ensures file == FileText(history)
    {
      IncrementedKeeps(history, name);
      IncrementedCountsFit(history, name);
      history := CountUp(history, name);
      Write();
    }

    /** `remove_obsolete_entry` */
    method RemoveObsoleteEntry(i: nat)
      requires Valid() && i < |history|
      modifies this
      ensures Valid()
      ensures history == EraseAt(old(history), i)
      ensures file == FileText(history)
    {
      ErasedKeeps(history, i);
      history := EraseAt(history, i);
      Write();
    }

    /** `write` */
    method Write()
      modifies `file
      ensures file == FileText(history)
    {
      var text := HEADER + "1.0\n";
      for i := 0 to |history|
        invariant text + EntryLines(history[i..]) == FileText(history)
      {
        assert history[i..][1..] == history[i + 1..];
        var line := EntryLine(history[i]);
        assert text + (line + EntryLines(history[i + 1..])) == text + line + EntryLines(history[i + 1..]);
        text := text + line;
      }
      assert text + "" == text;
      file := text;
    }

    /** Any run of choices. */
    method IncrementAll(names: seq<string>)
      requires Valid() && |names| <= INT_MAX
      requires forall e <- history :: e.count <= INT_MAX - |names|
      modifies this
      ensures Valid()
      ensures history == AfterRun(old(history), names)
      ensures names != [] ==> file == FileText(history)
    {
      ghost var h := history;
      for i := 0 to |names|
        invariant Valid()
        invariant history == AfterRun(h, names[..i])
        invariant i > 0 ==> file == FileText(history)
      {
        RunCountBound(h, names[..i], names[i], INT_MAX - |names|);
        AfterRunStep(h, names, i);
        Increment(names[i]);
      }
      assert names[..|names|] == names;
    }
  }

  const INT_MIN := -0x8000_0000

  /** Every count is an `int`. */
  ghost predicate CountsFit(h: History) {
    forall e <- h :: INT_MIN <= e.count <= INT_MAX
  }

  /** The file is the one that `write` produced for this history, or the one that it was read from. */
  ghost predicate Saved(h: History, file: string) {
    file == FileText(h) || Open(file) == Some(h)
  }

  lemma ErasedKeeps(h: History, i: nat)
    requires i < |h| && Sorted(h) && UniqueNames(h) && CountsFit(h)
    ensures Sorted(EraseAt(h, i)) && UniqueNames(EraseAt(h, i)) && CountsFit(EraseAt(h, i))
  {
    ElementsBeforeErase(h, i);
  }

  lemma IncrementedCountsFit(h: History, name: string)
    requires UniqueNames(h) && CountsFit(h) && CountOf(h, name) < INT_MAX
    ensures CountsFit(Incremented(h, name))
  {
    EntriesWithout(h, name);
    EntriesAfterInsert(WithoutName(h, name), Entry(CountOf(h, name) + 1, name));
    var i := IndexOfName(h, name);
    assert i < |h| ==> h[i] in h;
  }

  lemma FirstWithName(h: History, name: string, i: nat)
    requires i <= |h| && (forall k :: 0 <= k < i ==> h[k].name != name)
    requires i < |h| ==> h[i].name == name
    ensures IndexOfName(h, name) == i
  {
  }

  lemma UpperBoundIs(h: History, count: int, i: nat)
    requires i <= |h| && (forall k :: 0 <= k < i ==> h[k].count >= count)
    requires i < |h| ==> h[i].count < count
    ensures UpperBound(h, count) == i
  {
  }

  lemma ErasedNames(h: History, name: string)
    requires UniqueNames(h)
    ensures forall e <- WithoutName(h, name) :: e.name != name
  {
    var i := IndexOfName(h, name);
    if i < |h| {
      forall k | 0 <= k < |h| - 1 ensures EraseAt(h, i)[k].name != name {
        assert h[i].name == name;
      }
    }
  }

  lemma InsertKeepsSorted(h: History, e: Entry)
    requires Sorted(h)
    ensures Sorted(Insert(h, e))
  {
  }

  lemma InsertKeepsUnique(h: History, e: Entry)
    requires UniqueNames(h) && forall x <- h :: x.name != e.name
    ensures UniqueNames(Insert(h, e))
  {
    assert forall k :: 0 <= k < |h| ==> h[k] in h;
  }

  lemma WithoutKeeps(h: History, name: string)
    requires Sorted(h) && UniqueNames(h)
    ensures Sorted(WithoutName(h, name)) && UniqueNames(WithoutName(h, name))
    ensures forall e <- WithoutName(h, name) :: e.name != name
  {
    ErasedNames(h, name);
  }

  /** One choice keeps the order and the uniqueness of names. */
  lemma IncrementedKeeps(h: History, name: string)
    requires Sorted(h) && UniqueNames(h)
    ensures Sorted(Incremented(h, name)) && UniqueNames(Incremented(h, name))
  {
    WithoutKeeps(h, name);
    InsertKeepsSorted(WithoutName(h, name), Entry(CountOf(h, name) + 1, name));
    InsertKeepsUnique(WithoutName(h, name), Entry(CountOf(h, name) + 1, name));
  }

  /** Inserting the larger element first and erasing the old one after it comes to the same. */
  lemma EmplaceThenErase(h: History, name: string, i: nat)
    requires Sorted(h) && i < |h| && IndexOfName(h, name) == i
    ensures i + 1 < |Insert(h, Entry(h[i].count + 1, name))|
    ensures EraseAt(Insert(h, Entry(h[i].count + 1, name)), i + 1) == Incremented(h, name)
  {
    var e := Entry(h[i].count + 1, name);
    var at, rest := UpperBound(h, e.count), EraseAt(h, i);
    assert at <= i;
    UpperBoundIs(rest, e.count, at);
    assert EraseAt(InsertAt(h, at, e), i + 1) == InsertAt(rest, at, e);
  }

  // ------------------------------------------------------------------------------------------
  // Whole runs
  // ------------------------------------------------------------------------------------------

  function AfterRun(h: History, names: seq<string>): History {
    if names == [] then h
    else Incremented(AfterRun(h, names[..|names| - 1]), names[|names| - 1])
  }

  lemma AfterRunStep(h: History, names: seq<string>, i: nat)
    requires i < |names|
    ensures AfterRun(h, names[..i + 1]) == Incremented(AfterRun(h, names[..i]), names[i])
  {
    assert names[..i + 1][..i] == names[..i];
  }

  function Occurrences(names: seq<string>, name: string): nat {
    multiset(names)[name]
  }

  lemma OccurrencesBound(names: seq<string>, name: string)
    ensures Occurrences(names, name) <= |names|
  {
    assert |multiset(names)| == |names|;
    var m := multiset(names);
    assert m == m[name := 0] + multiset{}[name := m[name]];
  }

  /** When a name got its present count: at its last choice, or before the run in the initial order. */
  function Arrival(h: History, names: seq<string>, name: string): int {
    if names == [] then IndexOfName(h, name) - |h|
    else if names[|names| - 1] == name then |names|
    else Arrival(h, names[..|names| - 1], name)
  }

  /** The order that the history keeps: larger counts first, earlier arrivals first among equal counts. */
  ghost predicate Earlier(a: Entry, b: Entry, h: History, names: seq<string>) {
    a.count > b.count || (a.count == b.count && Arrival(h, names, a.name) < Arrival(h, names, b.name))
  }

  ghost predicate Ranked(result: History, h: History, names: seq<string>) {
    forall p, q :: 0 <= p < q < |result| ==> Earlier(result[p], result[q], h, names)
  }

  lemma CountOfElement(h: History, i: nat)
    requires UniqueNames(h) && i < |h|
    ensures CountOf(h, h[i].name) == h[i].count && IndexOfName(h, h[i].name) == i
  {
    FirstWithName(h, h[i].name, i);
  }

  lemma NotCounted(h: History, name: string)
    requires !Has(h, name)
    ensures CountOf(h, name) == 0 && IndexOfName(h, name) == |h|
  {
    assert forall k :: 0 <= k < |h| ==> h[k] in h;
  }

  lemma EntriesAfterInsert(h: History, e: Entry)
    ensures forall x :: x in Insert(h, e) <==> x in h || x == e
  {
    ElementsAfterInsert(h, UpperBound(h, e.count), e);
  }

  lemma EntriesWithout(h: History, name: string)
    requires UniqueNames(h)
    ensures forall x :: x in WithoutName(h, name) <==> x in h && x.name != name
  {
    ErasedNames(h, name);
    var r, i := WithoutName(h, name), IndexOfName(h, name);
    forall x | x in h && x.name != name ensures x in r {
      var k :| 0 <= k < |h| && h[k] == x;
      assert i < |h| ==> k != i && r[if k < i then k else k - 1] == x;
    }
  }

  lemma CountOfMember(h: History, e: Entry)
    requires UniqueNames(h) && e in h
    ensures CountOf(h, e.name) == e.count && Has(h, e.name)
  {
    var i :| 0 <= i < |h| && h[i] == e;
    CountOfElement(h, i);
  }

  /** One choice raises one count by one. */
  lemma IncrementedCounts(h: History, name: string, other: string)
    requires UniqueNames(h) && Sorted(h)
    ensures CountOf(Incremented(h, name), other) == CountOf(h, other) + (if other == name then 1 else 0)
    ensures Has(Incremented(h, name), other) <==> Has(h, other) || other == name
  {
    IncrementedKeeps(h, name);
    EntriesWithout(h, name);
    var e := Entry(CountOf(h, name) + 1, name);
    EntriesAfterInsert(WithoutName(h, name), e);
    if other == name {
      CountOfMember(Incremented(h, name), e);
    } else if Has(h, other) {
      var x :| x in h && x.name == other;
      CountOfMember(h, x);
      CountOfMember(Incremented(h, name), x);
    } else {
      NotCounted(h, other);
      NotCounted(Incremented(h, name), other);
    }
  }

  /** After any run, names are unique and every count has risen by the number of choices. */
  lemma {:induction false} RunCounts(h: History, names: seq<string>, name: string)
    requires Sorted(h) && UniqueNames(h)
    ensures Sorted(AfterRun(h, names)) && UniqueNames(AfterRun(h, names))
    ensures CountOf(AfterRun(h, names), name) == CountOf(h, name) + Occurrences(names, name)
    ensures Has(AfterRun(h, names), name) <==> Has(h, name) || name in names
  {
    if names != [] {
      var init, last := names[..|names| - 1], names[|names| - 1];
      assert names == init + [last];
      RunCounts(h, init, name);
      IncrementedKeeps(AfterRun(h, init), last);
      IncrementedCounts(AfterRun(h, init), last, name);
    }
  }

  lemma RunKeeps(h: History, names: seq<string>)
    requires Sorted(h) && UniqueNames(h)
    ensures Sorted(AfterRun(h, names)) && UniqueNames(AfterRun(h, names))
  {
    RunCounts(h, names, "");
  }

  lemma RunCountBound(h: History, names: seq<string>, name: string, bound: int)
    requires Sorted(h) && UniqueNames(h) && 0 <= bound && forall e <- h :: e.count <= bound
    ensures CountOf(AfterRun(h, names), name) <= bound + |names|
  {
    RunCounts(h, names, name);
    OccurrencesBound(names, name);
    var i := IndexOfName(h, name);
    assert i < |h| ==> h[i] in h;
  }

  lemma {:induction false} ArrivalBound(h: History, names: seq<string>, name: string)
    ensures Arrival(h, names, name) <= |names|
  {
    if names != [] && names[|names| - 1] != name {
      ArrivalBound(h, names[..|names| - 1], name);
    }
  }

  lemma InitialOrderIsRanked(h: History)
    requires Sorted(h) && UniqueNames(h)
    ensures Ranked(h, h, [])
  {
    forall i | 0 <= i < |h| ensures IndexOfName(h, h[i].name) == i {
      CountOfElement(h, i);
    }
  }

  /** After any run, the order is by descending count, and by arrival among equal counts. */
  lemma {:induction false} RunIsRanked(h: History, names: seq<string>)
    requires Sorted(h) && UniqueNames(h)
    ensures Ranked(AfterRun(h, names), h, names)
  {
    if names == [] {
      InitialOrderIsRanked(h);
    } else {
      var init, last := names[..|names| - 1], names[|names| - 1];
      var before := AfterRun(h, init);
      RunIsRanked(h, init);
      RunKeeps(h, init);
      ChoiceIsRanked(before, h, init, last);
      assert names == init + [last];
    }
  }

  lemma ChoiceIsRanked(before: History, h: History, init: seq<string>, last: string)
    requires Sorted(before) && UniqueNames(before) && Ranked(before, h, init)
    ensures Ranked(Incremented(before, last), h, init + [last])
  {
    var names := init + [last];
    assert names[..|init|] == init;
    WithoutKeeps(before, last);
    var rest, e := WithoutName(before, last), Entry(CountOf(before, last) + 1, last);
    var at := UpperBound(rest, e.count);
    assert Ranked(rest, h, init);
    ArrivalsBound(h, init, rest);
    forall k | 0 <= k < |rest| ensures Arrival(h, names, rest[k].name) == Arrival(h, init, rest[k].name) {
      assert rest[k] in rest;
    }
    InsertKeepsRanked(rest, at, e, h, names);
  }

  lemma InsertKeepsRanked(rest: History, at: nat, e: Entry, h: History, names: seq<string>)
    requires at <= |rest| && Ranked(rest, h, names)
    requires forall k :: 0 <= k < at ==> Earlier(rest[k], e, h, names)
    requires forall k :: at <= k < |rest| ==> e.count > rest[k].count
    ensures Ranked(InsertAt(rest, at, e), h, names)
  {
    var r := InsertAt(rest, at, e);
    forall p, q | 0 <= p < q < |r| ensures Earlier(r[p], r[q], h, names) {
    }
  }

  lemma ArrivalsBound(h: History, names: seq<string>, entries: History)
    ensures forall k :: 0 <= k < |entries| ==> Arrival(h, names, entries[k].name) <= |names|
  {
    forall k | 0 <= k < |entries| ensures Arrival(h, names, entries[k].name) <= |names| {
      ArrivalBound(h, names, entries[k].name);
    }
  }

  // ------------------------------------------------------------------------------------------
  // The file
  // ------------------------------------------------------------------------------------------

  const HEADER := "j4dd history v"
  const UINT_RANGE := 0x1_0000_0000

  function Decimal(n: nat): (s: string)
    ensures s != "" && IsDigit(s[0])
  {
    if n < 10 then [Digit(n)] else Decimal(n / 10) + [Digit(n % 10)]
  }

  function Digit(n: nat): (c: char)
    requires n < 10
    ensures IsDigit(c) && DigitValue(c) == n
  {
    '0' + n as char
  }

  predicate IsDigit(c: char) {
    '0' <= c <= '9'
  }

  function DigitValue(c: char): nat
    requires IsDigit(c)
  {
    (c - '0') as nat
  }

  function DecimalInt(n: int): string {
    if n < 0 then "-" + Decimal(-n) else Decimal(n)
  }

  function EntryLine(e: Entry): string {
    DecimalInt(e.count) + "," + e.name + "\n"
  }

  function EntryLines(h: History): string {
    if h == [] then "" else EntryLine(h[0]) + EntryLines(h[1..])
  }

  function FileText(h: History): string {
    HEADER + "1.0\n" + EntryLines(h)
  }

  // ---- stdio --------------------------------------------------------------------------------

  predicate IsSpace(c: char) {
    c == ' ' || '\t' <= c <= '\r'
  }

  function SkipSpaces(s: string): string {
    if s != "" && IsSpace(s[0]) then SkipSpaces(s[1..]) else s
  }

  /** The value of the leading digits, on top of those already read, and the rest. */
  function ScanDigits(s: string, value: nat): (nat, string) {
    if s != "" && IsDigit(s[0]) then ScanDigits(s[1..], 10 * value + DigitValue(s[0])) else (value, s)
  }

  /** `fscanf("%u")`: leading white space, an optional sign and at least one digit. */
  function ScanUnsigned(s: string): Option<(nat, string)> {
    var t := SkipSpaces(s);
    var signed := t != "" && (t[0] == '+' || t[0] == '-');
    var digits := if signed then t[1..] else t;
    if digits == "" || !IsDigit(digits[0]) then None
    else
      var (value, rest) := ScanDigits(digits, 0);
      var number := if signed && t[0] == '-' then 0 - value as int else value as int;
      Some((number % UINT_RANGE, rest))
  }

  /** A literal character of a format: it is consumed if it is there. */
  function SkipChar(s: string, c: char): string {
    if s != "" && s[0] == c then s[1..] else s
  }

  /** `getline`: the text up to and including the first newline, or all of it. */
  function Line(s: string): (line: string)
    ensures |line| <= |s| && line == s[..|line|]
    ensures s != "" ==> line != ""
  {
    if s == "" then "" else if s[0] == '\n' then "\n" else [s[0]] + Line(s[1..])
  }

  /** The conversion of `unsigned` to `int`. */
  function ToInt(u: nat): int
    requires u < UINT_RANGE
  {
    if u <= INT_MAX then u else u - UINT_RANGE
  }

  // ---- reading ------------------------------------------------------------------------------

  lemma {:induction false} ScanDigitsShrinks(s: string, value: nat)
    ensures |ScanDigits(s, value).1| <= |s|
    ensures s != "" && IsDigit(s[0]) ==> |ScanDigits(s, value).1| < |s|
  {
    if s != "" && IsDigit(s[0]) {
      ScanDigitsShrinks(s[1..], 10 * value + DigitValue(s[0]));
    }
  }

  lemma {:induction false} SkipSpacesShrinks(s: string)
    ensures |SkipSpaces(s)| <= |s|
  {
    if s != "" && IsSpace(s[0]) {
      SkipSpacesShrinks(s[1..]);
    }
  }

  lemma ScanUnsignedShrinks(s: string)
    ensures ScanUnsigned(s).Some? ==> |ScanUnsigned(s).value.1| < |s|
  {
    SkipSpacesShrinks(s);
    var t := SkipSpaces(s);
    ScanDigitsShrinks(t, 0);
    if t != "" {
      ScanDigitsShrinks(t[1..], 0);
    }
  }

  /** `read_file` on what follows the header; None stands for the exceptions. */
  function ReadEntries(s: string, h: History): Option<History>
    decreases |s|
  {
    var scanned := ScanUnsigned(s);
    if scanned.None? then Some(h)
    else
      ScanUnsignedShrinks(s);
      var rest := SkipChar(scanned.value.1, ',');
      var line := Line(rest);
      if |line| <= 1 then None
      else ReadEntries(rest[|line|..], Insert(h, Entry(ToInt(scanned.value.0), line[..|line| - 1])))
  }

  /** The loop of `read_file`. */
  method ReadFile(text: string) returns (r: Option<History>)
    ensures r == ReadEntries(text, [])
    ensures r.Some? ==> Sorted(r.value) && CountsFit(r.value) && forall e <- r.value :: Storable(e.name)
  {
    if ReadEntries(text, []).Some? {
      ReadNamesAreStorable(text, []);
      ReadHistoryIsSorted(text, []);
    }
    var history: History := [];
    var s := text;
    while true
      invariant ReadEntries(s, history) == ReadEntries(text, [])
      decreases |s|
    {
      var scanned := ScanUnsigned(s);
      if scanned.None? {
        return Some(history);
      }
      ScanUnsignedShrinks(s);
      var rest := SkipChar(scanned.value.1, ',');
      var line := Line(rest);
      if |line| == 0 || |line| == 1 {
        return None;
      }
      history := Insert(history, Entry(ToInt(scanned.value.0), line[..|line| - 1]));
      s := rest[|line|..];
    }
  }

  /** `compare_versions` against version 1.0: negative is too old, positive too new. */
  function CompareVersions(major: nat, minor: nat): int {
    if major > 1 then 1 else if major < 1 then -1 else if minor > 0 then 1 else 0
  }

  /** The constructor on the text of an existing file; None stands for its exceptions. */
  function Open(text: string): Option<History> {
    if !StartsWith(text, HEADER) then None
    else
      var major := ScanUnsigned(text[|HEADER|..]);
      if major.None? || major.value.1 == "" || major.value.1[0] != '.' then None
      else
        var minor := ScanUnsigned(major.value.1[1..]);
        if minor.None? || minor.value.1 == "" || minor.value.1[0] != '\n' then None
        else if CompareVersions(major.value.0, minor.value.0) != 0 then None
        else ReadEntries(minor.value.1[1..], [])
  }

  lemma {:induction false} DecimalScans(n: nat, rest: string)
    ensures ScanDigits(Decimal(n) + rest, 0) == ScanDigits(rest, n)
  {
    var digit := [Digit(n % 10)];
    assert (digit + rest)[1..] == rest;
    if n >= 10 {
      DecimalScans(n / 10, digit + rest);
      assert Decimal(n) + rest == Decimal(n / 10) + (digit + rest);
    }
  }

  lemma NumberScans(n: nat, rest: string)
    requires n < UINT_RANGE && (rest == "" || !IsDigit(rest[0]))
    ensures ScanUnsigned(Decimal(n) + rest) == Some((n, rest))
  {
    DecimalScans(n, rest);
    assert (Decimal(n) + rest)[0] == Decimal(n)[0];
    UnsignedScans(Decimal(n) + rest, n, rest);
  }

  lemma UnsignedScans(s: string, n: nat, rest: string)
    requires s != "" && IsDigit(s[0]) && ScanDigits(s, 0) == (n, rest) && n < UINT_RANGE
    ensures ScanUnsigned(s) == Some((n, rest))
  {
    assert SkipSpaces(s) == s;
  }

  /** A minus sign makes `%u` read the number modulo the range of `unsigned`. */
  lemma NegativeScans(n: nat, rest: string)
    requires 0 < n < UINT_RANGE && (rest == "" || !IsDigit(rest[0]))
    ensures ScanUnsigned("-" + Decimal(n) + rest) == Some((UINT_RANGE - n, rest))
  {
    var digits := Decimal(n) + rest;
    var s := "-" + digits;
    Assoc("-", Decimal(n), rest);
    DecimalScans(n, rest);
    assert digits[0] == Decimal(n)[0];
    assert SkipSpaces(s) == s && s[1..] == digits;
  }

  /** Every `int` that is written is read back. */
  lemma IntScans(n: int, rest: string)
    requires INT_MIN <= n <= INT_MAX && (rest == "" || !IsDigit(rest[0]))
    ensures var scanned := ScanUnsigned(DecimalInt(n) + rest);
            scanned.Some? && ToInt(scanned.value.0) == n && scanned.value.1 == rest
  {
    if n < 0 {
      NegativeScans(-n, rest);
    } else {
      NumberScans(n, rest);
    }
  }

  /** The names that a line of the file can hold. */
  predicate Storable(name: string) {
    name != "" && '\n' !in name
  }

  lemma {:induction false} LineOfName(name: string, rest: string)
    requires '\n' !in name
    ensures Line(name + "\n" + rest) == name + "\n"
  {
    var text := name + "\n" + rest;
    if name != "" {
      assert name[0] in name;
      LineOfName(name[1..], rest);
      assert text[1..] == name[1..] + "\n" + rest;
      assert name + "\n" == [name[0]] + (name[1..] + "\n");
    }
  }

  lemma EntryReads(e: Entry, rest: string, h: History)
    requires INT_MIN <= e.count <= INT_MAX && Storable(e.name)
    ensures ReadEntries(EntryLine(e) + rest, h) == ReadEntries(rest, Insert(h, e))
  {
    var s := EntryLine(e) + rest;
    var line := e.name + "\n";
    var tail := "," + (line + rest);
    assert s == DecimalInt(e.count) + tail;
    IntScans(e.count, tail);
    assert tail[1..] == line + rest;
    assert line + rest == e.name + "\n" + rest;
    LineOfName(e.name, rest);
    assert (line + rest)[|line|..] == rest;
    assert line[..|line| - 1] == e.name;
  }

  lemma {:induction false} LastInserted(h: History, e: Entry)
    requires forall x <- h :: x.count >= e.count
    ensures Insert(h, e) == h + [e]
  {
    assert forall k :: 0 <= k < |h| ==> h[k] in h;
    UpperBoundIs(h, e.count, |h|);
  }

  lemma AtLeastTheNext(h: History, done: History, todo: History)
    requires todo != [] && h == done + todo && Sorted(h)
    ensures forall x <- done :: x.count >= todo[0].count
  {
    assert h[|done|] == todo[0];
    forall x <- done ensures x.count >= todo[0].count {
      var k :| 0 <= k < |done| && done[k] == x;
      assert h[k] == x;
    }
  }

  lemma {:induction false} EntriesRead(h: History, done: History, todo: History)
    requires Sorted(h) && h == done + todo
    requires CountsFit(h) && forall e <- h :: Storable(e.name)
    ensures ReadEntries(EntryLines(todo), done) == Some(h)
    decreases |todo|
  {
    if todo == [] {
      assert done + todo == done;
    } else {
      assert todo[0] in h;
      FirstEntryReads(h, done, todo);
      assert todo == [todo[0]] + todo[1..];
      Assoc(done, [todo[0]], todo[1..]);
      EntriesRead(h, done + [todo[0]], todo[1..]);
    }
  }

  lemma FirstEntryReads(h: History, done: History, todo: History)
    requires todo != [] && h == done + todo && Sorted(h)
    requires INT_MIN <= todo[0].count <= INT_MAX && Storable(todo[0].name)
    ensures ReadEntries(EntryLines(todo), done) == ReadEntries(EntryLines(todo[1..]), done + [todo[0]])
  {
    EntryReads(todo[0], EntryLines(todo[1..]), done);
    AtLeastTheNext(h, done, todo);
    LastInserted(done, todo[0]);
  }

  /** One successful round of reading. */
  lemma ReadStep(s: string, h: History) returns (e: Entry, rest: string)
    requires ScanUnsigned(s).Some? && ReadEntries(s, h).Some?
    ensures |rest| < |s| && ReadEntries(s, h) == ReadEntries(rest, Insert(h, e))
    ensures Storable(e.name) && INT_MIN <= e.count <= INT_MAX
  {
    var scanned := ScanUnsigned(s);
    ScanUnsignedShrinks(s);
    var tail := SkipChar(scanned.value.1, ',');
    var line := Line(tail);
    NewlineEndsLine(tail);
    e, rest := Entry(ToInt(scanned.value.0), line[..|line| - 1]), tail[|line|..];
  }

  lemma {:induction false} ReadNamesAreStorable(s: string, h: History)
    requires ReadEntries(s, h).Some? && CountsFit(h) && forall e <- h :: Storable(e.name)
    ensures CountsFit(ReadEntries(s, h).value) && forall e <- ReadEntries(s, h).value :: Storable(e.name)
    decreases |s|
  {
    if ScanUnsigned(s).Some? {
      var e, rest := ReadStep(s, h);
      EntriesAfterInsert(h, e);
      ReadNamesAreStorable(rest, Insert(h, e));
    }
  }

  lemma {:induction false} ReadHistoryIsSorted(s: string, h: History)
    requires ReadEntries(s, h).Some? && Sorted(h)
    ensures Sorted(ReadEntries(s, h).value)
    decreases |s|
  {
    if ScanUnsigned(s).Some? {
      var e, rest := ReadStep(s, h);
      InsertKeepsSorted(h, e);
      ReadHistoryIsSorted(rest, Insert(h, e));
    }
  }

  lemma {:induction false} NewlineEndsLine(s: string)
    ensures Line(s) != "" ==> '\n' !in Line(s)[..|Line(s)| - 1]
  {
    if s != "" && s[0] != '\n' {
      NewlineEndsLine(s[1..]);
      var rest := Line(s[1..]);
      if rest != "" {
        assert Line(s)[..|Line(s)| - 1] == [s[0]] + rest[..|rest| - 1];
      }
    }
  }

  lemma HeaderReads(entries: string)
    ensures Open(HEADER + "1.0\n" + entries) == ReadEntries(entries, [])
  {
    var text := HEADER + "1.0\n" + entries;
    var minor := "0" + ("\n" + entries);
    assert text[..|HEADER|] == HEADER;
    assert Decimal(1) == "1" && Decimal(0) == "0";
    assert text[|HEADER|..] == Decimal(1) + ("." + minor);
    NumberScans(1, "." + minor);
    assert ("." + minor)[1..] == Decimal(0) + ("\n" + entries);
    NumberScans(0, "\n" + entries);
    assert ("\n" + entries)[1..] == entries;
  }

  /**
   Opening the file that `write` produced restores the same list, ties in the same order, exactly when no
   name is empty or contains a newline.
   */
  lemma FileRoundTrip(h: History)
    requires Sorted(h) && CountsFit(h)
    ensures Open(FileText(h)) == Some(h) <==> forall e <- h :: Storable(e.name)
  {
    HeaderReads(EntryLines(h));
    assert [] + h == h;
    if forall e <- h :: Storable(e.name) {
      EntriesRead(h, [], h);
    } else if ReadEntries(EntryLines(h), []).Some? {
      ReadNamesAreStorable(EntryLines(h), []);
    }
  }

  /** What the constructor reads from any file that it accepts. */
  lemma OpenedHistoryIsSorted(text: string)
    requires Open(text).Some?
    ensures var h := Open(text).value; Sorted(h) && CountsFit(h) && forall e <- h :: Storable(e.name)
  {
    var minor := ScanUnsigned(ScanUnsigned(text[|HEADER|..]).value.1[1..]);
    var entries := minor.value.1[1..];
    assert Open(text) == ReadEntries(entries, []);
    ReadNamesAreStorable(entries, []);
    ReadHistoryIsSorted(entries, []);
  }

  /** A restart finds the same history exactly if every name can be stored. */
  lemma SavedHistoryReopens(h: History, file: string)
    requires Sorted(h) && CountsFit(h) && Saved(h, file)
    ensures Open(file) == Some(h) <==> forall e <- h :: Storable(e.name)
  {
    if Open(file) == Some(h) {
      OpenedHistoryIsSorted(file);
    } else {
      FileRoundTrip(h);
    }
  }


  /** What the file looks like: a line with the version, then count, comma and name of each entry. */
  lemma FileLooksLike(h: History)
    ensures FileText(h) == "j4dd history v1.0\n" + EntryLines(h)
    ensures h != [] ==> EntryLines(h) == DecimalInt(h[0].count) + "," + h[0].name + "\n" + EntryLines(h[1..])
  {
    assert HEADER + "1.0\n" == "j4dd history v1.0\n";
  }

  lemma CountsLookLike()
    ensures DecimalInt(120) == "120" && DecimalInt(-3) == "-3"
  {
    assert Decimal(1) == "1" && Decimal(12) == Decimal(1) + [Digit(2)] && Digit(2) == '2';
    assert Decimal(12) == "12" && Decimal(120) == Decimal(12) + [Digit(0)] && Digit(0) == '0';
    assert Decimal(3) == [Digit(3)] && Digit(3) == '3';
  }

  /** A file of any other version is refused. */
  lemma VersionIsChecked(major: nat, minor: nat, entries: string)
    requires major < UINT_RANGE && minor < UINT_RANGE
    ensures Open("j4dd history v" + Decimal(major) + "." + Decimal(minor) + "\n" + entries)
         == if major == 1 && minor == 0 then ReadEntries(entries, []) else None
  {
    var text := "j4dd history v" + Decimal(major) + "." + Decimal(minor) + "\n" + entries;
    var afterMinor := "\n" + entries;
    var afterMajor := "." + (Decimal(minor) + afterMinor);
    assert text[..|HEADER|] == HEADER;
    assert text[|HEADER|..] == Decimal(major) + afterMajor;
    NumberScans(major, afterMajor);
    assert afterMajor[1..] == Decimal(minor) + afterMinor;
    NumberScans(minor, afterMinor);
    assert afterMinor[1..] == entries;
  }

  /** An entry without a name makes the file unreadable. */
  lemma EmptyNameIsRefused(count: int, rest: string, h: History)
    requires INT_MIN <= count <= INT_MAX
    ensures ReadEntries(DecimalInt(count) + (",\n" + rest), h).None?
  {
    var tail := ",\n" + rest;
    IntScans(count, tail);
    assert tail[1..] == "\n" + rest && (tail[1..])[0] == '\n';
    assert Line(tail[1..]) == "\n";
  }

  // ------------------------------------------------------------------------------------------
  // Conversion of the old format
  // ------------------------------------------------------------------------------------------

  /** A line of the old file: a count and a desktop ID. */
  datatype OldLine = OldLine(count: int, id: string)

  /** The line resolves to an application with this Name or GenericName. */
  predicate Names(t: Table, line: OldLine, name: string) {
    Provides(t, line.id, name)
  }

  /** Line `k` is the first that names `name`. */
  ghost predicate FirstNames(t: Table, lines: seq<OldLine>, k: nat, name: string) {
    && k < |lines| && Names(t, lines[k], name)
    && forall j :: 0 <= j < k ==> !Names(t, lines[j], name)
  }

  /** Every name of the resolved applications has exactly one entry, with the count of the first line for it. */
  ghost predicate Converted(h: History, t: Table, lines: seq<OldLine>) {
    && Sorted(h) && UniqueNames(h)
    && (forall e <- h :: exists k: nat :: FirstNames(t, lines, k, e.name) && lines[k].count == e.count)
    && (forall k, name :: 0 <= k < |lines| && Names(t, lines[k], name) ==> Has(h, name))
  }

  lemma InsertKeeps(h: History, e: Entry)
    requires Sorted(h) && UniqueNames(h) && !Has(h, e.name)
    ensures Sorted(Insert(h, e)) && UniqueNames(Insert(h, e))
    ensures forall x :: x in Insert(h, e) <==> x in h || x == e
  {
    InsertKeepsSorted(h, e);
    InsertKeepsUnique(h, e);
    EntriesAfterInsert(h, e);
  }

  /** `ensure_uniqueness.emplace(name).second` guards the insertion. */
  method AddOnce(h: History, seen: set<string>, e: Entry) returns (h': History, seen': set<string>)
    requires Sorted(h) && UniqueNames(h) && (forall name :: name in seen <==> Has(h, name))
    ensures Sorted(h') && UniqueNames(h') && (forall name :: name in seen' <==> Has(h', name))
    ensures forall x :: x in h' <==> x in h || (x == e && !Has(h, e.name))
    ensures h' == if Has(h, e.name) then h else Insert(h, e)
  {
    h', seen' := h, seen + {e.name};
    if e.name !in seen {
      InsertKeeps(h, e);
      h' := Insert(h, e);
    }
    forall name ensures name in seen' <==> Has(h', name) {
      if Has(h, name) {
        var x :| x in h && x.name == name;
        assert x in h';
      }
      if name == e.name && e.name !in seen {
        assert e in h';
      }
    }
  }

  function FirstLine(t: Table, lines: seq<OldLine>, name: string): (k: nat)
    ensures k <= |lines|
  {
    if lines == [] || Names(t, lines[0], name) then 0 else 1 + FirstLine(t, lines[1..], name)
  }

  lemma {:induction false} FirstLineIs(t: Table, lines: seq<OldLine>, k: nat, name: string)
    requires FirstNames(t, lines, k, name)
    ensures FirstLine(t, lines, name) == k
  {
    if k > 0 {
      assert forall j :: 0 <= j < k - 1 ==> lines[1..][j] == lines[j + 1];
      FirstLineIs(t, lines[1..], k - 1, name);
    }
  }

  /** Where a name first occurs in the old file; the Name of an application comes before its GenericName. */
  function Place(t: Table, lines: seq<OldLine>, name: string): nat {
    var k := FirstLine(t, lines, name);
    2 * k + if k < |lines| && IsName(t, lines[k].id, name) then 0 else 1
  }

  predicate IsName(t: Table, id: string, name: string) {
    id in t && t[id].app.Some? && t[id].app.value.name == name
  }

  ghost predicate Ahead(a: Entry, b: Entry, t: Table, lines: seq<OldLine>) {
    a.count > b.count || (a.count == b.count && Place(t, lines, a.name) < Place(t, lines, b.name))
  }

  /** Among equal counts the order of the old file is kept. */
  ghost predicate InFileOrder(h: History, t: Table, lines: seq<OldLine>) {
    forall p, q :: 0 <= p < q < |h| ==> Ahead(h[p], h[q], t, lines)
  }

  ghost predicate PlacedBefore(h: History, t: Table, lines: seq<OldLine>, bound: nat) {
    forall e <- h :: Place(t, lines, e.name) < bound
  }

  lemma InsertKeepsFileOrder(h: History, at: nat, e: Entry, t: Table, lines: seq<OldLine>)
    requires at <= |h| && InFileOrder(h, t, lines)
    requires forall k :: 0 <= k < at ==> Ahead(h[k], e, t, lines)
    requires forall k :: at <= k < |h| ==> Ahead(e, h[k], t, lines)
    ensures InFileOrder(InsertAt(h, at, e), t, lines)
  {
    var r := InsertAt(h, at, e);
    forall p, q | 0 <= p < q < |r| ensures Ahead(r[p], r[q], t, lines) {
    }
  }

  /** A new entry goes behind the entries of the same count. */
  method AddInOrder(h: History, seen: set<string>, e: Entry, ghost t: Table, ghost lines: seq<OldLine>,
                    ghost bound: nat, ghost bound': nat)
    returns (h': History, seen': set<string>)
    requires Sorted(h) && UniqueNames(h) && (forall name :: name in seen <==> Has(h, name))
    requires InFileOrder(h, t, lines) && PlacedBefore(h, t, lines, bound) && bound <= bound'
    requires !Has(h, e.name) ==> bound <= Place(t, lines, e.name) < bound'
    ensures Sorted(h') && UniqueNames(h') && (forall name :: name in seen' <==> Has(h', name))
    ensures forall x :: x in h' <==> x in h || (x == e && !Has(h, e.name))
    ensures InFileOrder(h', t, lines) && PlacedBefore(h', t, lines, bound')
  {
    h', seen' := AddOnce(h, seen, e);
    if !Has(h, e.name) {
      forall k | 0 <= k < UpperBound(h, e.count) ensures Ahead(h[k], e, t, lines) {
        assert h[k] in h;
      }
      InsertKeepsFileOrder(h, UpperBound(h, e.count), e, t, lines);
    }
  }

  lemma PlaceOfNewName(before: History, t: Table, lines: seq<OldLine>, k: nat, name: string)
    requires k < |lines| && Converted(before, t, lines[..k]) && !Has(before, name) && Names(t, lines[k], name)
    ensures Place(t, lines, name) == 2 * k + if IsName(t, lines[k].id, name) then 0 else 1
  {
    forall j | 0 <= j < k ensures !Names(t, lines[j], name) {
      assert lines[..k][j] == lines[j];
    }
    FirstLineIs(t, lines, k, name);
  }

  /** The two entries of one line, Name first. */
  method AddBoth(before: History, seen: set<string>, count: int, app: NamedApplication,
                 ghost t: Table, ghost lines: seq<OldLine>, ghost k: nat)
    returns (h: History, seen': set<string>)
    requires k < |lines| && lines[k].count == count
    requires lines[k].id in t && t[lines[k].id].app == Some(app)
    requires Converted(before, t, lines[..k])
    requires InFileOrder(before, t, lines) && PlacedBefore(before, t, lines, 2 * k)
    requires forall name :: name in seen <==> Has(before, name)
    ensures Converted(h, t, lines[..k + 1])
    ensures InFileOrder(h, t, lines) && PlacedBefore(h, t, lines, 2 * k + 2)
    ensures forall name :: name in seen' <==> Has(h, name)
  {
    var e := Entry(count, app.name);
    if !Has(before, app.name) {
      PlaceOfNewName(before, t, lines, k, app.name);
    }
    h, seen' := AddInOrder(before, seen, e, t, lines, 2 * k, 2 * k + 1);
    if app.genericName != "" {
      ghost var between := h;
      if !Has(between, app.genericName) {
        NewGenericName(before, between, e, app.genericName);
        PlaceOfNewName(before, t, lines, k, app.genericName);
      }
      h, seen' := AddInOrder(h, seen', Entry(count, app.genericName), t, lines, 2 * k + 1, 2 * k + 2);
    }
    ConvertedStep(before, h, t, lines, k);
  }

  lemma NewGenericName(before: History, between: History, e: Entry, name: string)
    requires forall x :: x in between <==> x in before || (x == e && !Has(before, e.name))
    requires !Has(between, name)
    ensures !Has(before, name) && name != e.name
  {
    assert !Has(before, name);
    assert e in between || Has(before, e.name);
  }

  /** `convert_history_from_v0` on the lines of the file. */
  method ConvertHistoryFromV0(lines: seq<OldLine>, appm: AppManager) returns (h: History)
    ensures Converted(h, appm.applications, lines)
    ensures InFileOrder(h, appm.applications, lines)
  {
    h := [];
    var ensureUniqueness: set<string> := {};
    ghost var t := appm.applications;
    for k := 0 to |lines|
      invariant Converted(h, t, lines[..k])
      invariant InFileOrder(h, t, lines) && PlacedBefore(h, t, lines, 2 * k)
      invariant forall name :: name in ensureUniqueness <==> Has(h, name)
    {
      var lookup := appm.LookupById(lines[k].id);
      if lookup.Some? {
        h, ensureUniqueness := AddBoth(h, ensureUniqueness, lines[k].count, lookup.value, t, lines, k);
      } else {
        ConvertedStep(h, h, t, lines, k);
      }
    }
    assert lines[..|lines|] == lines;
  }

  lemma ConvertedStep(before: History, after: History, t: Table, lines: seq<OldLine>, k: nat)
    requires k < |lines| && Converted(before, t, lines[..k])
    requires Sorted(after) && UniqueNames(after)
    requires forall e <- before :: e in after
    requires forall e <- after :: e in before
               || (e.count == lines[k].count && Names(t, lines[k], e.name) && !Has(before, e.name))
    requires forall name :: Names(t, lines[k], name) ==> Has(after, name)
    ensures Converted(after, t, lines[..k + 1])
  {
    var init, all := lines[..k], lines[..k + 1];
    forall e <- after ensures exists i: nat :: FirstNames(t, all, i, e.name) && all[i].count == e.count {
      if e in before {
        var i: nat :| FirstNames(t, init, i, e.name) && init[i].count == e.count;
        assert FirstNames(t, all, i, e.name);
      } else {
        assert all[k] == lines[k];
        forall j | 0 <= j < k ensures !Names(t, all[j], e.name) {
          assert all[j] == init[j];
        }
        assert FirstNames(t, all, k, e.name);
      }
    }
    forall i, name | 0 <= i < |all| && Names(t, all[i], name) ensures Has(after, name) {
      if i < k {
        assert Names(t, init[i], name) && Has(before, name);
        var e :| e in before && e.name == name;
      }
    }
  }
}
