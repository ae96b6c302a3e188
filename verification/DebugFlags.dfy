/** debugFlagCollector.py: tags are cut out of classified source lines, the lines are sorted as
    whole text, and a loop that only looks at the previous tag numbers and lists each tag once. */
module DebugFlags {
  import opened Common
  import opened Substrings
  import opened Text

  // ------------------------------------------------------------ the lines between the passes

  /** What extract_tags writes for one message. */
  datatype Message = Message(tag: string, src: string, defn: string) {
    function Line(): string {
      "MSG=" + tag + src + defn + "\n"
    }
  }

  ghost predicate WellFormed(m: Message) {
    && m.tag != "" && m.tag[0] == ':' && !Contains(m.tag, "SRC=")
    && "SRC=" <= m.src && "DEF=" <= m.defn
  }

  /** s[a:b] with Python's clipping and negative positions. */
  function Slice(s: string, a: int, b: int): string {
    var lo, hi := Clip(|s|, a), Clip(|s|, b);
    if lo < hi then s[lo..hi] else ""
  }

  function Clip(n: nat, a: int): nat
    ensures Clip(n, a) <= n
  {
    if a < 0 then (if a + n < 0 then 0 else a + n) else if a > n then n else a
  }

  /** line[line.find("MSG=") + 4 : line.find("SRC=")] */
  function TagOf(line: string): string {
    Slice(line, Find(line, "MSG=") + 4, Find(line, "SRC="))
  }

  /** line[line.find("SRC=") : line.find("DEF=")] */
  function SrcOf(line: string): string {
    Slice(line, Find(line, "SRC="), Find(line, "DEF="))
  }

  /** line[line.find("DEF="):] */
  function DefOf(line: string): string {
    Slice(line, Find(line, "DEF="), |line|)
  }

  /** The text that begins the lines of one tag. */
  function Opening(tag: string): string {
    "MSG=" + tag + "SRC="
  }

  lemma FourLetterMark(m: string)
    requires |m| == 4 && m[1] != m[0] && m[2] != m[0] && m[3] != m[0]
    ensures Mark(m)
  {
    forall i | 0 < i < 4 ensures m[i] != m[0] {
      assert i == 1 || i == 2 || i == 3;
    }
  }

  lemma MarksAreMarks()
    ensures Mark("SRC=") && Mark("DEF=")
  {
    FourLetterMark("SRC=");
    FourLetterMark("DEF=");
  }

  lemma MarkBegins(s: string, f: nat)
    requires OccursAt(s, "SRC=", f)
    ensures s[f] == 'S' && s[f + 1] == 'R'
  {
    assert s[f] == s[f..f + 4][0] && s[f + 1] == s[f..f + 4][1];
  }

  /** "SRC=" cannot begin inside "MSG=". */
  lemma NoMarkBefore(tag: string)
    requires !Contains(tag, "SRC=")
    ensures !Contains("MSG=" + tag, "SRC=")
  {
    var s := "MSG=" + tag;
    FindIsFirst(s, "SRC=");
    FindIsFirst(tag, "SRC=");
    var f := Find(s, "SRC=");
    assert s[0] == 'M' && s[1] == 'S' && s[2] == 'G' && s[3] == '=';
    if f >= 0 { MarkBegins(s, f); }
    if f >= 4 {
      assert s[f..f + 4] == tag[f - 4..f];
      assert OccursAt(tag, "SRC=", f - 4);
    }
  }

  /** A line belongs to a tag exactly when it begins with that tag's opening. */
  lemma TagOfLine(line: string, tag: string)
    requires !Contains(tag, "SRC=") && Opening(tag) <= line
    ensures TagOf(line) == tag && Find(line, "SRC=") == 4 + |tag|
  {
    MarksAreMarks();
    NoMarkBefore(tag);
    var rest := line[|Opening(tag)|..];
    assert line == ("MSG=" + tag) + "SRC=" + rest;
    FindAfter("MSG=" + tag, "SRC=", rest);
    assert line[..4] == "MSG=";
  }

  lemma TagOfMessage(m: Message)
    requires WellFormed(m)
    ensures TagOf(m.Line()) == m.tag && Opening(m.tag) <= m.Line()
    ensures Find(m.Line(), "SRC=") == 4 + |m.tag|
  {
    assert m.Line() == Opening(m.tag) + (m.src[4..] + m.defn + "\n");
    TagOfLine(m.Line(), m.tag);
  }

  /** "DEF=" is found before the definition exactly when the text before it holds one. */
  lemma FindDefinition(before: string, defn: string)
    requires "DEF=" <= defn
    ensures 0 <= Find(before + defn, "DEF=") <= |before|
    ensures Find(before + defn, "DEF=") == |before| <==> !Contains(before, "DEF=")
  {
    var line := before + defn;
    assert line == before + "DEF=" + defn[4..];
    FindIsFirst(line, "DEF=");
    assert OccursAt(line, "DEF=", |before|) by { assert line[|before|..|before| + 4] == "DEF="; }
    if Contains(before, "DEF=") {
      FindIsFirst(before, "DEF=");
      var f := Find(before, "DEF=");
      assert OccursAt(line, "DEF=", f) by { assert line[f..f + 4] == before[f..f + 4]; }
    } else {
      MarksAreMarks();
      FindAfter(before, "DEF=", defn[4..]);
    }
  }

  /** The source entry comes back whole exactly when no "DEF=" stands before the definition. */
  lemma SourceRecoveredIff(m: Message)
    requires WellFormed(m)
    ensures SrcOf(m.Line()) == m.src <==> !Contains("MSG=" + m.tag + m.src, "DEF=")
    ensures !Contains("MSG=" + m.tag + m.src, "DEF=") ==> DefOf(m.Line()) == m.defn + "\n"
  {
    var before := "MSG=" + m.tag + m.src;
    var line, d := m.Line(), Find(m.Line(), "DEF=");
    TagOfMessage(m);
    FindDefinition(before, m.defn + "\n");
    assert line == before + (m.defn + "\n");
    if d == |before| {
      assert line[4 + |m.tag|..d] == m.src;
      assert line[d..] == m.defn + "\n";
    }
  }

  /** A tag that holds "DEF=" costs its source. */
  lemma SourceLost()
    ensures var m := Message(":DEF=", "SRC=f", "DEF=g"); WellFormed(m) && SrcOf(m.Line()) == ""
  {
    var m := Message(":DEF=", "SRC=f", "DEF=g");
    FindIsFirst(m.tag, "SRC=");
    assert m.tag[0] == ':' && m.tag[1] == 'D' && m.tag[2] == 'E';
    var f := Find(m.tag, "SRC=");
    if f >= 0 { MarkBegins(m.tag, f); }
    TagOfMessage(m);
    var line := m.Line();
    assert line[5..9] == "DEF=" && OccursAt(line, "DEF=", 5);
    FindIsFirst(line, "DEF=");
  }

  // ------------------------------------------------------------ sorting

  /** lines.sort() leaves no line before a smaller one. */
  ghost predicate Sorted(lines: seq<string>) {
    forall i, j :: 0 <= i < j < |lines| ==> !Less(lines[j], lines[i])
  }

  function Insert(line: string, lines: seq<string>): seq<string> {
    if lines == [] || !Less(lines[0], line) then [line] + lines else [lines[0]] + Insert(line, lines[1..])
  }

  function Sort(lines: seq<string>): seq<string> {
    if lines == [] then [] else Insert(lines[0], Sort(lines[1..]))
  }

  lemma {:induction false} InsertSorts(line: string, lines: seq<string>)
    requires Sorted(lines)
    ensures Sorted(Insert(line, lines))
    ensures multiset(Insert(line, lines)) == multiset{line} + multiset(lines)
    ensures forall l :: l in Insert(line, lines) ==> l == line || l in lines
  {
    if lines == [] {
    } else if !Less(lines[0], line) {
      forall j | 0 <= j < |lines| ensures !Less(lines[j], line) {
        if Less(lines[j], line) {
          NotLessTransitive(line, lines[0], lines[j]);
        }
      }
    } else {
      InsertSorts(line, lines[1..]);
      assert lines == [lines[0]] + lines[1..];
      LessAsymmetric(lines[0], line);
      forall l | l in Insert(line, lines[1..]) ensures !Less(l, lines[0]) {
        if l != line {
          var j :| 0 <= j < |lines[1..]| && lines[1..][j] == l;
          assert lines[j + 1] == l;
        }
      }
    }
  }

  lemma LessAsymmetric(a: string, b: string)
    requires Less(a, b)
    ensures !Less(b, a)
  {
    if Less(b, a) {
      LessTransitive(a, b, a);
      LessIrreflexive(a);
    }
  }

  /** a <= b and b <= c give a <= c. */
  lemma NotLessTransitive(a: string, b: string, c: string)
    requires !Less(b, a) && !Less(c, b)
    ensures !Less(c, a)
  {
    if Less(c, a) {
      LessTotal(b, c);
      if b == c {
      } else {
        LessTransitive(b, c, a);
      }
    }
  }

  lemma {:induction false} SortSorts(lines: seq<string>)
    ensures Sorted(Sort(lines)) && multiset(Sort(lines)) == multiset(lines)
  {
    if lines != [] {
      SortSorts(lines[1..]);
      InsertSorts(lines[0], Sort(lines[1..]));
      assert lines == [lines[0]] + lines[1..];
    }
  }

  lemma SortMembers(lines: seq<string>, line: string)
    ensures line in Sort(lines) <==> line in lines
  {
    SortSorts(lines);
    assert line in multiset(Sort(lines)) <==> line in multiset(lines);
  }

  // ------------------------------------------------------------ contiguity

  /** A line as extract_tags writes it. */
  ghost predicate IsLine(line: string) {
    TagOf(line) != "" && !Contains(TagOf(line), "SRC=") && Opening(TagOf(line)) <= line
  }

  ghost predicate AllLines(lines: seq<string>) {
    forall i :: 0 <= i < |lines| ==> IsLine(lines[i])
  }

  /** In whole-line order the lines of one tag stand together, whatever the order of the tags. */
  lemma SameTagContiguous(lines: seq<string>, i: nat, j: nat, k: nat)
    requires Sorted(lines) && AllLines(lines) && i <= j <= k < |lines|
    requires TagOf(lines[i]) == TagOf(lines[k])
    ensures TagOf(lines[j]) == TagOf(lines[i])
  {
    if i < j < k {
      var a, b, c := lines[i], lines[j], lines[k];
      LessTotal(a, b);
      LessTotal(b, c);
      if a != b && b != c {
        PrefixConvex(Opening(TagOf(a)), a, b, c);
        TagOfLine(b, TagOf(a));
      }
    }
  }

  /** The tags themselves need not come out in order: ":a" follows ":aB". */
  lemma TagsNeedNotBeSorted()
    ensures var a, b := Message(":a", "SRC=", "DEF="), Message(":aB", "SRC=", "DEF=");
            WellFormed(a) && WellFormed(b) && Less(a.tag, b.tag) && Less(b.Line(), a.Line())
  {
    var a, b := Message(":a", "SRC=", "DEF="), Message(":aB", "SRC=", "DEF=");
    LessNotPrefix(b.Line(), a.Line());
    assert SmallerAt(b.Line(), a.Line(), 6);
    PrefixIsLess(a.tag, b.tag);
  }

  // ------------------------------------------------------------ numbering, as it is meant

  /** What remove_duplicate_flags reads off a line. */
  function Parse(line: string): Message {
    Message(TagOf(line), SrcOf(line), DefOf(line))
  }

  ghost function ParseAll(lines: seq<string>): seq<Message> {
    seq(|lines|, i requires 0 <= i < |lines| => Parse(lines[i]))
  }

  /** What is written to the definitions file. */
  datatype Entry =
    | Header(number: nat, tag: string)
    | Source(number: nat, sub: nat, text: string)
    | Definition(number: nat, sub: nat, text: string)

  /** The tags of the first n messages. */
  ghost function Tags(ms: seq<Message>, n: nat): set<string>
    requires n <= |ms|
  {
    if n == 0 then {} else Tags(ms, n - 1) + {ms[n - 1].tag}
  }

  /** How many of the first n messages carry the tag. */
  ghost function Count(ms: seq<Message>, n: nat, tag: string): nat
    requires n <= |ms|
  {
    if n == 0 then 0 else Count(ms, n - 1, tag) + if ms[n - 1].tag == tag then 1 else 0
  }

  /** The entries for message n, numbered by looking at all messages up to it: its tag's number is
      how many tags there are so far, its own how many messages of the tag there are so far. */
  ghost function EntriesOf(ms: seq<Message>, n: nat): seq<Entry>
    requires n < |ms|
  {
    var number, sub := |Tags(ms, n + 1)|, Count(ms, n + 1, ms[n].tag);
    (if ms[n].tag in Tags(ms, n) then [] else [Header(number, ms[n].tag)])
    + [Source(number, sub, ms[n].src), Definition(number, sub, ms[n].defn)]
  }

  ghost function Entries(ms: seq<Message>, n: nat): seq<Entry>
    requires n <= |ms|
  {
    if n == 0 then [] else Entries(ms, n - 1) + EntriesOf(ms, n - 1)
  }

  /** The tags of the first n messages in the order they first appear. */
  ghost function Listed(ms: seq<Message>, n: nat): seq<string>
    requires n <= |ms|
  {
    if n == 0 then []
    else Listed(ms, n - 1) + if ms[n - 1].tag in Tags(ms, n - 1) then [] else [ms[n - 1].tag]
  }

  /** Messages with the same tag stand together, and no tag is empty. */
  ghost predicate Grouped(ms: seq<Message>) {
    && (forall i :: 0 <= i < |ms| ==> ms[i].tag != "")
    && (forall i, j, k :: 0 <= i <= j <= k < |ms| && ms[i].tag == ms[k].tag ==> ms[j].tag == ms[i].tag)
  }

  lemma SortedIsGrouped(lines: seq<string>)
    requires Sorted(lines) && AllLines(lines)
    ensures Grouped(ParseAll(lines))
  {
    var ms := ParseAll(lines);
    forall i | 0 <= i < |ms| ensures ms[i].tag != "" {
      assert IsLine(lines[i]);
    }
    forall i, j, k | 0 <= i <= j <= k < |ms| && ms[i].tag == ms[k].tag ensures ms[j].tag == ms[i].tag {
      SameTagContiguous(lines, i, j, k);
    }
  }

  lemma {:induction false} TagsHold(ms: seq<Message>, n: nat, tag: string)
    requires n <= |ms|
    ensures tag in Tags(ms, n) <==> exists i :: 0 <= i < n && ms[i].tag == tag
    ensures tag in Tags(ms, n) <==> Count(ms, n, tag) > 0
  {
    if n > 0 {
      TagsHold(ms, n - 1, tag);
    }
  }

  // ------------------------------------------------------------ the loop

  /** Looking at the previous tag is enough to tell whether a tag is new. */
  lemma NewWhenDifferent(ms: seq<Message>, n: nat)
    requires Grouped(ms) && n < |ms|
    ensures ms[n].tag in Tags(ms, n) <==> n > 0 && ms[n - 1].tag == ms[n].tag
    ensures ms[n].tag in Tags(ms, n) <==> Count(ms, n, ms[n].tag) > 0
  {
    TagsHold(ms, n, ms[n].tag);
    if i :| 0 <= i < n && ms[i].tag == ms[n].tag {
      assert ms[n - 1].tag == ms[i].tag;
    }
  }

  /** One turn of the loop: what the numbering becomes with message n. */
  lemma NextMessage(ms: seq<Message>, n: nat, again: bool, number: nat, sub: nat)
    requires Grouped(ms) && n < |ms|
    requires again <==> n > 0 && ms[n - 1].tag == ms[n].tag
    requires number == |Tags(ms, n)| + if again then 0 else 1
    requires sub == 1 + if again then Count(ms, n, ms[n].tag) else 0
    ensures |Tags(ms, n + 1)| == number && Count(ms, n + 1, ms[n].tag) == sub
    ensures Listed(ms, n + 1) == Listed(ms, n) + if again then [] else [ms[n].tag]
    ensures Entries(ms, n + 1) == Entries(ms, n)
            + ((if again then [] else [Header(number, ms[n].tag)])
               + [Source(number, sub, ms[n].src), Definition(number, sub, ms[n].defn)])
  {
    NewWhenDifferent(ms, n);
  }

  /** remove_duplicate_flags: what goes to the flags file and to the definitions file. */
  method RemoveDuplicateFlags(lines: seq<string>) returns (flags: seq<string>, entries: seq<Entry>)
    requires Sorted(lines) && AllLines(lines)
    ensures entries == Entries(ParseAll(lines), |lines|) && flags == Listed(ParseAll(lines), |lines|)
  {
    ghost var ms := ParseAll(lines);
    SortedIsGrouped(lines);
    flags, entries := [], [];
    var uniqueLine, count, subCount := "", 0, 0;
    for n := 0 to |lines|
      invariant entries == Entries(ms, n) && flags == Listed(ms, n)
      invariant count == |Tags(ms, n)|
      invariant uniqueLine == if n == 0 then "" else ms[n - 1].tag
      invariant subCount == if n == 0 then 0 else Count(ms, n, uniqueLine)
    {
      var m := Parse(lines[n]);
      assert m == ms[n];
      ghost var again := m.tag == uniqueLine;
      var written: seq<Entry> := [];
      if m.tag != uniqueLine {
        count := count + 1;
        subCount := 0;
        flags := flags + [m.tag];
        written := [Header(count, m.tag)];
        uniqueLine := m.tag;
      }
      subCount := subCount + 1;
      written := written + [Source(count, subCount, m.src), Definition(count, subCount, m.defn)];
      NextMessage(ms, n, again, count, subCount);
      entries := entries + written;
    }
  }

  // ------------------------------------------------------------ what the numbers mean

  lemma AppendNew<T>(s: seq<T>, x: T)
    requires NoRepeats(s) && x !in s
    ensures NoRepeats(s + [x])
  {
  }

  lemma {:induction false} ListedHolds(ms: seq<Message>, n: nat, t: string)
    requires n <= |ms|
    ensures t in Listed(ms, n) <==> t in Tags(ms, n)
  {
    if n > 0 {
      ListedHolds(ms, n - 1, t);
    }
  }

  /** Each tag is listed once, and none is dropped. */
  lemma {:induction false} ListedOnce(ms: seq<Message>, n: nat)
    requires n <= |ms|
    ensures NoRepeats(Listed(ms, n)) && |Listed(ms, n)| == |Tags(ms, n)|
  {
    if n > 0 {
      var x, was := ms[n - 1].tag, Listed(ms, n - 1);
      ListedOnce(ms, n - 1);
      ListedHolds(ms, n - 1, x);
      if x in Tags(ms, n - 1) {
        assert Tags(ms, n) == Tags(ms, n - 1);
        assert Listed(ms, n) == was;
      } else {
        AppendNew(was, x);
        assert Listed(ms, n) == was + [x];
      }
    }
  }

  /** The number under which message i is filed. */
  ghost function Number(ms: seq<Message>, i: nat): nat
    requires i < |ms|
  {
    |Tags(ms, i + 1)|
  }

  lemma {:induction false} TagsInclude(ms: seq<Message>, i: nat, j: nat)
    requires i <= j <= |ms|
    ensures Tags(ms, i) <= Tags(ms, j)
    decreases j
  {
    if i < j {
      TagsInclude(ms, i, j - 1);
    }
  }

  lemma {:induction false} SameTagSameSet(ms: seq<Message>, i: nat, j: nat)
    requires Grouped(ms) && i <= j < |ms| && ms[i].tag == ms[j].tag
    ensures Tags(ms, i + 1) == Tags(ms, j + 1)
    decreases j
  {
    if i < j {
      assert ms[j - 1].tag == ms[i].tag;
      SameTagSameSet(ms, i, j - 1);
      assert ms[j].tag in Tags(ms, j);
    }
  }

  /** Messages are filed under one number exactly when they have one tag. */
  lemma OneNumberOneTag(ms: seq<Message>, i: nat, j: nat)
    requires Grouped(ms) && i <= j < |ms|
    ensures Number(ms, i) == Number(ms, j) <==> ms[i].tag == ms[j].tag
    ensures Number(ms, i) <= Number(ms, j)
  {
    if ms[i].tag == ms[j].tag {
      SameTagSameSet(ms, i, j);
    } else {
      TagsInclude(ms, i + 1, j + 1);
      TagsHold(ms, i + 1, ms[j].tag);
      SmallerSubset(Tags(ms, i + 1) + {ms[j].tag}, Tags(ms, j + 1));
    }
  }

  lemma {:induction false} SmallerSubset(a: set<string>, b: set<string>)
    requires a <= b
    ensures |a| <= |b|
  {
    if a != {} {
      var x :| x in a;
      SmallerSubset(a - {x}, b - {x});
    }
  }

  ghost function Select(entries: seq<Entry>, p: Entry -> bool): seq<Entry> {
    if entries == [] then []
    else
      var e := entries[|entries| - 1];
      Select(entries[..|entries| - 1], p) + if p(e) then [e] else []
  }

  lemma SelectAppend(entries: seq<Entry>, e: Entry, p: Entry -> bool)
    ensures Select(entries + [e], p) == Select(entries, p) + if p(e) then [e] else []
  {
    assert (entries + [e])[..|entries|] == entries;
  }

  predicate IsHeader(e: Entry) {
    e.Header?
  }

  predicate IsSource(e: Entry) {
    e.Source?
  }

  ghost function Selected(e: Entry, p: Entry -> bool): seq<Entry> {
    if p(e) then [e] else []
  }

  lemma SelectPair(entries: seq<Entry>, s: Entry, d: Entry, p: Entry -> bool)
    ensures Select(entries + [s, d], p) == Select(entries, p) + Selected(s, p) + Selected(d, p)
  {
    SelectAppend(entries, s, p);
    SelectAppend(entries + [s], d, p);
    assert entries + [s, d] == entries + [s] + [d];
  }

  lemma SelectHeaded(entries: seq<Entry>, h: Entry, s: Entry, d: Entry, p: Entry -> bool)
    ensures Select(entries + [h, s, d], p) == Select(entries, p) + Selected(h, p) + Selected(s, p) + Selected(d, p)
  {
    SelectAppend(entries, h, p);
    SelectPair(entries + [h], s, d, p);
    assert entries + [h, s, d] == entries + [h] + [s, d];
  }

  lemma EntriesNext(ms: seq<Message>, n: nat)
    requires n < |ms|
    ensures var number, sub := Number(ms, n), Count(ms, n + 1, ms[n].tag);
            var h, s, d := Header(number, ms[n].tag), Source(number, sub, ms[n].src),
                           Definition(number, sub, ms[n].defn);
            Entries(ms, n + 1) == Entries(ms, n) + if ms[n].tag in Tags(ms, n) then [s, d] else [h, s, d]
  {
  }

  /** A selection grows by what is selected from the entries of the next message. */
  lemma SelectNext(ms: seq<Message>, n: nat, p: Entry -> bool)
    requires n < |ms|
    ensures var number, sub := Number(ms, n), Count(ms, n + 1, ms[n].tag);
            var h, s, d := Header(number, ms[n].tag), Source(number, sub, ms[n].src),
                           Definition(number, sub, ms[n].defn);
            Select(Entries(ms, n + 1), p) ==
            Select(Entries(ms, n), p) + (if ms[n].tag in Tags(ms, n) then [] else Selected(h, p))
                                      + Selected(s, p) + Selected(d, p)
  {
    var number, sub := Number(ms, n), Count(ms, n + 1, ms[n].tag);
    var h, s, d := Header(number, ms[n].tag), Source(number, sub, ms[n].src),
                   Definition(number, sub, ms[n].defn);
    EntriesNext(ms, n);
    if ms[n].tag in Tags(ms, n) {
      SelectPair(Entries(ms, n), s, d, p);
      NothingMore(Select(Entries(ms, n), p));
    } else {
      SelectHeaded(Entries(ms, n), h, s, d, p);
    }
  }

  lemma NothingMore(entries: seq<Entry>)
    ensures entries + [] == entries
  {
  }

  /** The same for a selection that takes definitions alone. */
  lemma SelectNextDefinition(ms: seq<Message>, n: nat, p: Entry -> bool)
    requires n < |ms|
    requires forall number, tag :: !p(Header(number, tag))
    requires forall number, sub, text :: !p(Source(number, sub, text))
    ensures var d := Definition(Number(ms, n), Count(ms, n + 1, ms[n].tag), ms[n].defn);
            Select(Entries(ms, n + 1), p) == Select(Entries(ms, n), p) + Selected(d, p)
  {
    SelectNext(ms, n, p);
  }

  /** The same for a selection that takes no definitions. */
  lemma SelectNextSource(ms: seq<Message>, n: nat, p: Entry -> bool)
    requires n < |ms|
    requires forall number, sub, text :: !p(Definition(number, sub, text))
    ensures var number, sub := Number(ms, n), Count(ms, n + 1, ms[n].tag);
            var h, s := Header(number, ms[n].tag), Source(number, sub, ms[n].src);
            Select(Entries(ms, n + 1), p) ==
            Select(Entries(ms, n), p) + (if ms[n].tag !in Tags(ms, n) && p(h) then [h] else [])
                                      + (if p(s) then [s] else [])
  {
    SelectNext(ms, n, p);
  }

  ghost predicate Numbered(headers: seq<Entry>, tags: seq<string>) {
    |headers| == |tags| && forall i :: 0 <= i < |headers| ==> headers[i] == Header(i + 1, tags[i])
  }

  lemma NumberedNext(headers: seq<Entry>, tags: seq<string>, x: string)
    requires Numbered(headers, tags)
    ensures Numbered(headers + [Header(|tags| + 1, x)], tags + [x])
  {
  }

  lemma HeaderStep(ms: seq<Message>, k: nat)
    requires k < |ms|
    ensures ms[k].tag in Tags(ms, k) ==>
            Select(Entries(ms, k + 1), IsHeader) == Select(Entries(ms, k), IsHeader) &&
            Listed(ms, k + 1) == Listed(ms, k)
    ensures ms[k].tag !in Tags(ms, k) ==>
            Select(Entries(ms, k + 1), IsHeader) ==
            Select(Entries(ms, k), IsHeader) + [Header(|Listed(ms, k)| + 1, ms[k].tag)] &&
            Listed(ms, k + 1) == Listed(ms, k) + [ms[k].tag]
  {
    SelectNextSource(ms, k, IsHeader);
    ListedOnce(ms, k);
  }

  /** The headers are numbered 1, 2, 3, ... with the tags as listed. */
  lemma {:induction false} HeadersInOrder(ms: seq<Message>, n: nat)
    requires n <= |ms|
    ensures Numbered(Select(Entries(ms, n), IsHeader), Listed(ms, n))
  {
    if n > 0 {
      var k := n - 1;
      HeadersInOrder(ms, k);
      HeaderStep(ms, k);
      if ms[k].tag !in Tags(ms, k) {
        NumberedNext(Select(Entries(ms, k), IsHeader), Listed(ms, k), ms[k].tag);
      }
    }
  }

  ghost predicate SourcesOf(sources: seq<Entry>, ms: seq<Message>, n: nat) {
    |sources| == n <= |ms| && forall i :: 0 <= i < n ==> sources[i].Source? && sources[i].text == ms[i].src
  }

  lemma SourceNext(sources: seq<Entry>, ms: seq<Message>, n: nat, s: Entry)
    requires SourcesOf(sources, ms, n) && n < |ms| && s.Source? && s.text == ms[n].src
    ensures SourcesOf(sources + [s], ms, n + 1)
  {
  }

  lemma SourceStep(ms: seq<Message>, k: nat)
    requires k < |ms|
    ensures Select(Entries(ms, k + 1), IsSource) ==
            Select(Entries(ms, k), IsSource) + [Source(Number(ms, k), Count(ms, k + 1, ms[k].tag), ms[k].src)]
  {
    SelectNextSource(ms, k, IsSource);
  }

  /** Nothing is lost or added: the source entries are those of the messages, in order. */
  lemma {:induction false} SourcesConserved(ms: seq<Message>, n: nat)
    requires n <= |ms|
    ensures SourcesOf(Select(Entries(ms, n), IsSource), ms, n)
  {
    if n > 0 {
      var k := n - 1;
      SourcesConserved(ms, k);
      SourceStep(ms, k);
      SourceNext(Select(Entries(ms, k), IsSource), ms, k,
                 Source(Number(ms, k), Count(ms, n, ms[k].tag), ms[k].src));
    }
  }

  /** Selects the source entries filed under one number. */
  function FiledUnder(number: nat): Entry -> bool {
    (e: Entry) => e.Source? && e.number == number
  }

  ghost predicate SubNumbered(mine: seq<Entry>, m: nat) {
    |mine| == m && forall i :: 0 <= i < m ==> mine[i].Source? && mine[i].sub == i + 1
  }

  lemma SubNumberedNext(mine: seq<Entry>, m: nat, s: Entry)
    requires SubNumbered(mine, m) && s.Source? && s.sub == m + 1
    ensures SubNumbered(mine + [s], m + 1)
  {
  }

  lemma FiledStep(ms: seq<Message>, k: nat, g: nat)
    requires Grouped(ms) && k < |ms| && g < |ms|
    ensures var p, t := FiledUnder(Number(ms, g)), ms[g].tag;
            && (ms[k].tag != t ==> Select(Entries(ms, k + 1), p) == Select(Entries(ms, k), p) &&
                                   Count(ms, k + 1, t) == Count(ms, k, t))
            && (ms[k].tag == t ==> Select(Entries(ms, k + 1), p) == Select(Entries(ms, k), p) +
                                     [Source(Number(ms, k), Count(ms, k, t) + 1, ms[k].src)] &&
                                   Count(ms, k + 1, t) == Count(ms, k, t) + 1)
  {
    SelectNextSource(ms, k, FiledUnder(Number(ms, g)));
    OneNumberOneTag(ms, if g <= k then g else k, if g <= k then k else g);
  }

  /** Under the number of one tag, the source entries are sub-numbered 1 .. m for its m messages. */
  lemma {:induction false} SubNumbersInOrder(ms: seq<Message>, n: nat, g: nat)
    requires Grouped(ms) && n <= |ms| && g < |ms|
    ensures SubNumbered(Select(Entries(ms, n), FiledUnder(Number(ms, g))), Count(ms, n, ms[g].tag))
  {
    if n > 0 {
      var k, t := n - 1, ms[g].tag;
      SubNumbersInOrder(ms, k, g);
      FiledStep(ms, k, g);
      if ms[k].tag == t {
        SubNumberedNext(Select(Entries(ms, k), FiledUnder(Number(ms, g))), Count(ms, k, t),
                        Source(Number(ms, k), Count(ms, k, t) + 1, ms[k].src));
      }
    }
  }

  // ------------------------------------------------------------ cutting the tags out

  predicate Space(c: char) {
    c == ' ' || c == '\t' || c == '\n' || c == '\r' || c == '\U{0B}' || c == '\U{0C}'
  }

  function LStrip(s: string): string {
    if s != "" && Space(s[0]) then LStrip(s[1..]) else s
  }

  function RStrip(s: string): string {
    if s != "" && Space(s[|s| - 1]) then RStrip(s[..|s| - 1]) else s
  }

  /** s.strip() */
  function Strip(s: string): string {
    RStrip(LStrip(s))
  }

  /** Stripping cuts off blanks at both ends, and all of them. */
  ghost predicate Blank(s: string) {
    forall c :: c in s ==> Space(c)
  }

  lemma {:induction false} LStripCuts(s: string) returns (left: string)
    ensures s == left + LStrip(s) && Blank(left) && (LStrip(s) == "" || !Space(LStrip(s)[0]))
  {
    left := "";
    if s != "" && Space(s[0]) {
      left := LStripCuts(s[1..]);
      left := [s[0]] + left;
    }
  }

  lemma {:induction false} RStripCuts(s: string) returns (right: string)
    ensures s == RStrip(s) + right && Blank(right) && (RStrip(s) == "" || !Space(RStrip(s)[|RStrip(s)| - 1]))
  {
    right := "";
    if s != "" && Space(s[|s| - 1]) {
      right := RStripCuts(s[..|s| - 1]);
      right := right + [s[|s| - 1]];
    }
  }

  lemma StripCuts(s: string) returns (left: string, right: string)
    ensures s == left + Strip(s) + right && Blank(left) && Blank(right)
    ensures Strip(s) == "" || (!Space(Strip(s)[0]) && !Space(Strip(s)[|Strip(s)| - 1]))
  {
    left := LStripCuts(s);
    right := RStripCuts(LStrip(s));
    if Strip(s) != "" { assert Strip(s)[0] == LStrip(s)[0]; }
  }

  lemma {:induction false} RStripKeeps(s: string, p: string)
    requires p != "" && !Space(p[|p| - 1]) && p <= s
    ensures p <= RStrip(s) <= s
  {
    if Space(s[|s| - 1]) {
      assert |p| < |s|;
      RStripKeeps(s[..|s| - 1], p);
    }
  }

  /** Stripping keeps a beginning without blanks at its ends, and only cuts at the end. */
  lemma StripKeeps(s: string, p: string)
    requires p != "" && !Space(p[0]) && !Space(p[|p| - 1]) && p <= s
    ensures p <= Strip(s) <= s
  {
    RStripKeeps(s, p);
  }

  lemma PartOfPart(s: string, a: nat, b: nat, c: nat, d: nat)
    requires a <= b <= |s| && c <= d <= b - a
    ensures s[a..b][c..d] == s[a + c..a + d]
  {
    assert forall i :: 0 <= i < d - c ==> s[a..b][c..d][i] == s[a + c..a + d][i];
  }

  lemma PartHolds(s: string, a: nat, b: nat, sub: string)
    requires a <= b <= |s| && Contains(s[a..b], sub)
    ensures Contains(s, sub)
  {
    FindIsFirst(s[a..b], sub);
    FindIsFirst(s, sub);
    var f := Find(s[a..b], sub);
    PartOfPart(s, a, b, f, f + |sub|);
    assert OccursAt(s, sub, a + f);
  }

  /** The tag a message line yields: from its first quote to the next, after a colon. */
  function TagFrom(line: string): string {
    var colon := ":" + Slice(line, Find(line, "\"") + 1, |line|);
    Strip(Slice(colon, 0, Find(colon, "\"")))
  }

  lemma MarkAfterColon(s: string)
    ensures Contains(":" + s, "SRC=") ==> Contains(s, "SRC=")
  {
    FindIsFirst(":" + s, "SRC=");
    FindIsFirst(s, "SRC=");
    var f := Find(":" + s, "SRC=");
    if f >= 0 {
      MarkBegins(":" + s, f);
      assert (":" + s)[f..f + 4] == s[f - 1..f + 3];
      assert OccursAt(s, "SRC=", f - 1);
    }
  }

  lemma QuoteAt(s: string, f: nat)
    requires OccursAt(s, "\"", f)
    ensures s[f] == '"'
  {
    assert s[f] == s[f..f + 1][0];
  }

  /** A message line that ends its line yields a tag that begins with a colon. */
  lemma TagFromIsTag(line: string)
    requires line != "" && line[|line| - 1] == '\n' && !Contains(line, "SRC=")
    ensures TagFrom(line) != "" && TagFrom(line)[0] == ':' && !Contains(TagFrom(line), "SRC=")
  {
    var q := Find(line, "\"");
    FindIsFirst(line, "\"");
    if q >= 0 { QuoteAt(line, q); }
    var rest := Slice(line, q + 1, |line|);
    assert rest == line[q + 1..|line|] && rest != "";
    if Contains(rest, "SRC=") { PartHolds(line, q + 1, |line|, "SRC="); }
    MarkAfterColon(rest);
    var colon := ":" + rest;
    var d := Find(colon, "\"");
    FindIsFirst(colon, "\"");
    if d >= 0 { QuoteAt(colon, d); }
    var cut := Slice(colon, 0, d);
    var hi := Clip(|colon|, d);
    assert hi >= 1 && cut == colon[0..hi];
    if Contains(cut, "SRC=") { PartHolds(colon, 0, hi, "SRC="); }
    StripKeeps(cut, ":");
    var tag := Strip(cut);
    assert tag == cut[0..|tag|];
    if Contains(tag, "SRC=") { PartHolds(cut, 0, |tag|, "SRC="); }
  }

  lemma {:induction false} RStripBehind(c: char, s: string)
    requires !Space(c)
    ensures RStrip([c] + s) == [c] + RStrip(s)
  {
    if s != "" && Space(s[|s| - 1]) {
      assert ([c] + s)[..|s|] == [c] + s[..|s| - 1];
      RStripBehind(c, s[..|s| - 1]);
    }
  }

  lemma QuoteAfterColon(s: string)
    ensures Contains(":" + s, "\"") ==> Contains(s, "\"")
  {
    FindIsFirst(s, "\"");
    FindIsFirst(":" + s, "\"");
    var f := Find(":" + s, "\"");
    if f >= 0 {
      QuoteAt(":" + s, f);
      assert s[f - 1..f] == (":" + s)[f..f + 1];
      assert OccursAt(s, "\"", f - 1);
    }
  }

  lemma CutAround(before: string, mark: string, after: string)
    ensures var s := before + mark + after;
            Slice(s, 0, |before|) == before && Slice(s, |before| + |mark|, |s|) == after
  {
    var s := before + mark + after;
    assert s[0..|before|] == before;
    assert s[|before| + |mark|..|s|] == after;
  }

  lemma TagOfRest(tag: string, after: string)
    requires !Contains(tag, "\"")
    ensures var colon := ":" + (tag + "\"" + after); Slice(colon, 0, Find(colon, "\"")) == ":" + tag
  {
    assert Mark("\"");
    QuoteAfterColon(tag);
    FindAfter(":" + tag, "\"", after);
    CutAround(":" + tag, "\"", after);
    assert ":" + (tag + "\"" + after) == ":" + tag + "\"" + after;
  }

  lemma RestOfLine(before: string, rest: string)
    requires !Contains(before, "\"")
    ensures var line := before + "\"" + rest; Slice(line, Find(line, "\"") + 1, |line|) == rest
  {
    assert Mark("\"");
    FindAfter(before, "\"", rest);
    CutAround(before, "\"", rest);
  }

  /** That is the text between the first two quotes, less the blanks at its end. */
  lemma TagBetweenQuotes(before: string, tag: string, after: string)
    requires !Contains(before, "\"") && !Contains(tag, "\"")
    ensures TagFrom(before + "\"" + (tag + "\"" + after)) == ":" + RStrip(tag)
  {
    var rest := tag + "\"" + after;
    RestOfLine(before, rest);
    TagOfRest(tag, after);
    TagFromParts(before + "\"" + rest, rest, ":" + tag);
    RStripBehind(':', tag);
  }

  lemma TagFromParts(line: string, rest: string, cut: string)
    requires Slice(line, Find(line, "\"") + 1, |line|) == rest
    requires Slice(":" + rest, 0, Find(":" + rest, "\"")) == cut
    requires cut != "" && !Space(cut[0])
    ensures TagFrom(line) == RStrip(cut)
  {
  }

  /** Without a closing quote the last character is lost: it is taken for the quote. */
  lemma TagWithoutClosingQuote(before: string, rest: string)
    requires !Contains(before, "\"") && !Contains(rest, "\"") && rest != ""
    ensures TagFrom(before + "\"" + rest) == ":" + RStrip(rest[..|rest| - 1])
  {
    RestOfLine(before, rest);
    CutLast(rest);
    TagFromParts(before + "\"" + rest, rest, ":" + rest[..|rest| - 1]);
    RStripBehind(':', rest[..|rest| - 1]);
  }

  lemma CutLast(rest: string)
    requires !Contains(rest, "\"") && rest != ""
    ensures Slice(":" + rest, 0, Find(":" + rest, "\"")) == ":" + rest[..|rest| - 1]
  {
    QuoteAfterColon(rest);
    NotFound(":" + rest, "\"");
    assert (":" + rest)[0..|rest|] == ":" + rest[..|rest| - 1];
  }

  lemma {:induction false} FindAtLeast(s: string, sub: string)
    ensures Find(s, sub) >= -1
  {
    if s != "" {
      FindAtLeast(s[1..], sub);
    }
  }

  lemma SliceAll(s: string)
    ensures Slice(s, 0, |s|) == s
  {
    assert s[0..|s|] == s;
  }

  lemma NotFound(s: string, sub: string)
    requires !Contains(s, sub)
    ensures Find(s, sub) == -1
  {
    FindAtLeast(s, sub);
  }

  lemma WholeLine(line: string)
    requires !Contains(line, "\"")
    ensures Slice(line, Find(line, "\"") + 1, |line|) == line
  {
    NotFound(line, "\"");
    SliceAll(line);
  }

  /** Without any quote, the line itself but for its last character. */
  lemma TagWithoutQuotes(line: string)
    requires !Contains(line, "\"") && line != ""
    ensures TagFrom(line) == ":" + RStrip(line[..|line| - 1])
  {
    WholeLine(line);
    CutLast(line);
    TagFromParts(line, line, ":" + line[..|line| - 1]);
    RStripBehind(':', line[..|line| - 1]);
  }

  /** What locate_debug_msgs leaves for the next pass: a line that holds "SRC=" begins with it, a
      message line ends with a newline, and so on for a definition. */
  ghost predicate Classified(line: string) {
    if Contains(line, "SRC=") then "SRC=" <= line
    else if Contains(line, "MSG=") then line != "" && line[|line| - 1] == '\n'
    else Contains(line, "DEF=") ==> "DEF=" <= line
  }

  ghost predicate Defines(line: string) {
    !Contains(line, "SRC=") && !Contains(line, "MSG=") && Contains(line, "DEF=")
  }

  /** A definition comes after a message line; without one the script stops with an error. */
  ghost predicate HasMessage(lines: seq<string>, n: nat)
    requires n < |lines|
  {
    Defines(lines[n]) ==> exists i :: 0 <= i < n && !Contains(lines[i], "SRC=") && Contains(lines[i], "MSG=")
  }

  ghost predicate HasSource(lines: seq<string>, n: nat)
    requires n < |lines|
  {
    Defines(lines[n]) ==> exists i :: 0 <= i < n && Contains(lines[i], "SRC=")
  }

  ghost predicate IsTag(t: string) {
    t != "" && t[0] == ':' && !Contains(t, "SRC=")
  }

  /** The source and the tag that a line n would be written with: those of the last line of each
      kind before it. */
  ghost function LastSource(lines: seq<string>, n: nat): string
    requires n <= |lines|
  {
    if n == 0 then "" else if Contains(lines[n - 1], "SRC=") then Strip(lines[n - 1]) else LastSource(lines, n - 1)
  }

  ghost function LastTag(lines: seq<string>, n: nat): string
    requires n <= |lines|
  {
    if n == 0 then ""
    else if !Contains(lines[n - 1], "SRC=") && Contains(lines[n - 1], "MSG=") then TagFrom(lines[n - 1])
    else LastTag(lines, n - 1)
  }

  // What a line tells, in the order in which extract_tags asks.

  ghost predicate TellsSource(line: string) {
    Contains(line, "SRC=")
  }

  ghost predicate TellsMessage(line: string) {
    !Contains(line, "SRC=") && Contains(line, "MSG=")
  }

  /** Line i is the last source line before line n. */
  ghost predicate IsLatestSource(lines: seq<string>, n: nat, i: nat)
    requires n <= |lines|
  {
    i < n && TellsSource(lines[i]) && forall j :: i < j < n ==> !TellsSource(lines[j])
  }

  ghost predicate IsLatestMessage(lines: seq<string>, n: nat, i: nat)
    requires n <= |lines|
  {
    i < n && TellsMessage(lines[i]) && forall j :: i < j < n ==> !TellsMessage(lines[j])
  }

  lemma {:induction false} LastSourceIs(lines: seq<string>, n: nat, i: nat)
    requires n <= |lines| && IsLatestSource(lines, n, i)
    ensures LastSource(lines, n) == Strip(lines[i])
  {
    if i < n - 1 {
      assert !TellsSource(lines[n - 1]);
      LastSourceIs(lines, n - 1, i);
    }
  }

  lemma LastTagHere(lines: seq<string>, n: nat)
    requires 0 < n <= |lines| && TellsMessage(lines[n - 1])
    ensures LastTag(lines, n) == TagFrom(lines[n - 1])
  {
  }

  lemma LastTagBefore(lines: seq<string>, n: nat)
    requires 0 < n <= |lines| && !TellsMessage(lines[n - 1])
    ensures LastTag(lines, n) == LastTag(lines, n - 1)
  {
  }

  lemma {:induction false} LastTagIs(lines: seq<string>, n: nat, i: nat)
    requires n <= |lines| && IsLatestMessage(lines, n, i)
    ensures LastTag(lines, n) == TagFrom(lines[i])
  {
    if i < n - 1 {
      LastTagBefore(lines, n);
      LastTagIs(lines, n - 1, i);
    } else {
      LastTagHere(lines, n);
    }
  }

  lemma {:induction false} NoSourceYet(lines: seq<string>, n: nat)
    requires n <= |lines| && forall i :: 0 <= i < n ==> !TellsSource(lines[i])
    ensures LastSource(lines, n) == ""
  {
    if n > 0 {
      assert !TellsSource(lines[n - 1]);
      NoSourceYet(lines, n - 1);
    }
  }

  /** m is what the definition on line n is written with: the last source and the last tag before it,
      and the line itself, without blanks at the ends. */
  ghost predicate Describes(lines: seq<string>, n: nat, m: Message)
    requires n < |lines|
  {
    && m.defn == Strip(lines[n])
    && (forall i: nat :: IsLatestSource(lines, n, i) ==> m.src == Strip(lines[i]))
    && (forall i: nat :: IsLatestMessage(lines, n, i) ==> m.tag == TagFrom(lines[i]))
    && ((forall i :: 0 <= i < n ==> !TellsSource(lines[i])) ==> m.src == "")
  }

  lemma LastOnesDescribe(lines: seq<string>, n: nat)
    requires n < |lines|
    ensures Describes(lines, n, Message(LastTag(lines, n), LastSource(lines, n), Strip(lines[n])))
  {
    forall i: nat | IsLatestSource(lines, n, i) ensures LastSource(lines, n) == Strip(lines[i]) {
      LastSourceIs(lines, n, i);
    }
    forall i: nat | IsLatestMessage(lines, n, i) ensures LastTag(lines, n) == TagFrom(lines[i]) {
      LastTagIs(lines, n, i);
    }
    if forall i :: 0 <= i < n ==> !TellsSource(lines[i]) {
      NoSourceYet(lines, n);
    }
  }

  ghost predicate Increasing(at: seq<nat>) {
    forall j, k :: 0 <= j < k < |at| ==> at[j] < at[k]
  }

  ghost predicate Covers(lines: seq<string>, n: nat, at: seq<nat>)
    requires n <= |lines|
  {
    && (forall i: nat :: i < n && Defines(lines[i]) ==> i in at)
    && (forall k :: 0 <= k < |at| ==> at[k] < n && Defines(lines[at[k]]))
  }

  ghost predicate AllDescribed(lines: seq<string>, at: seq<nat>, ms: seq<Message>) {
    |at| == |ms| && forall k :: 0 <= k < |at| ==> at[k] < |lines| && Describes(lines, at[k], ms[k])
  }

  /** The messages stand for the defining lines among the first n, one for each and in order; the k-th
      describes line at[k]. */
  ghost predicate Extracted(lines: seq<string>, n: nat, at: seq<nat>, ms: seq<Message>)
    requires n <= |lines|
  {
    Increasing(at) && Covers(lines, n, at) && AllDescribed(lines, at, ms)
  }

  lemma CoversMore(lines: seq<string>, n: nat, at: seq<nat>)
    requires n < |lines| && Covers(lines, n, at)
    ensures if Defines(lines[n]) then Covers(lines, n + 1, at + [n]) else Covers(lines, n + 1, at)
  {
  }

  lemma IncreasingMore(lines: seq<string>, n: nat, at: seq<nat>)
    requires n <= |lines| && Increasing(at) && Covers(lines, n, at)
    ensures Increasing(at + [n])
  {
  }

  lemma DescribedMore(lines: seq<string>, at: seq<nat>, ms: seq<Message>, n: nat, m: Message)
    requires AllDescribed(lines, at, ms) && n < |lines| && Describes(lines, n, m)
    ensures AllDescribed(lines, at + [n], ms + [m])
  {
    forall k | 0 <= k < |at| + 1 ensures (at + [n])[k] < |lines| && Describes(lines, (at + [n])[k], (ms + [m])[k]) {
      if k < |at| { assert (at + [n])[k] == at[k] && (ms + [m])[k] == ms[k]; }
    }
  }

  lemma {:induction false} MessagesAreExtracted(lines: seq<string>, n: nat) returns (at: seq<nat>)
    requires n <= |lines|
    ensures Extracted(lines, n, at, Messages(lines, n))
  {
    if n == 0 {
      at := [];
    } else {
      at := MessagesAreExtracted(lines, n - 1);
      LastOnesDescribe(lines, n - 1);
      CoversMore(lines, n - 1, at);
      if Defines(lines[n - 1]) {
        IncreasingMore(lines, n - 1, at);
        DescribedMore(lines, at, Messages(lines, n - 1), n - 1,
                      Message(LastTag(lines, n - 1), LastSource(lines, n - 1), Strip(lines[n - 1])));
        at := at + [n - 1];
      }
    }
  }

  /** One message for each definition line. */
  ghost function Messages(lines: seq<string>, n: nat): seq<Message>
    requires n <= |lines|
  {
    if n == 0 then []
    else
      var line, before := lines[n - 1], Messages(lines, n - 1);
      if Defines(line)
      then before + [Message(LastTag(lines, n - 1), LastSource(lines, n - 1), Strip(line))]
      else before
  }

  lemma {:induction false} LastOnesWellFormed(lines: seq<string>, n: nat)
    requires n <= |lines| && forall i :: 0 <= i < n ==> Classified(lines[i])
    ensures (exists i :: 0 <= i < n && Contains(lines[i], "SRC=")) ==> "SRC=" <= LastSource(lines, n)
    ensures (exists i :: 0 <= i < n && !Contains(lines[i], "SRC=") && Contains(lines[i], "MSG=")) ==>
            IsTag(LastTag(lines, n))
  {
    if n > 0 {
      var line := lines[n - 1];
      LastOnesWellFormed(lines, n - 1);
      assert Classified(line);
      if Contains(line, "SRC=") {
        StripKeeps(line, "SRC=");
      } else if Contains(line, "MSG=") {
        TagFromIsTag(line);
      }
    }
  }

  lemma {:induction false} MessagesWellFormed(lines: seq<string>, n: nat)
    requires n <= |lines|
    requires forall i :: 0 <= i < |lines| ==> Classified(lines[i]) && HasMessage(lines, i) && HasSource(lines, i)
    ensures forall m :: m in Messages(lines, n) ==> WellFormed(m)
  {
    if n > 0 {
      var line := lines[n - 1];
      MessagesWellFormed(lines, n - 1);
      LastOnesWellFormed(lines, n - 1);
      assert Classified(line) && HasMessage(lines, n - 1) && HasSource(lines, n - 1);
      if Defines(line) {
        StripKeeps(line, "DEF=");
      }
    }
  }

  ghost function LinesOf(ms: seq<Message>): seq<string> {
    seq(|ms|, i requires 0 <= i < |ms| => ms[i].Line())
  }

  /** extract_tags */
  method ExtractTags(lines: seq<string>) returns (output: seq<string>)
    requires forall n :: 0 <= n < |lines| ==> HasMessage(lines, n)
    ensures output == LinesOf(Messages(lines, |lines|))
    ensures exists at: seq<nat> :: Extracted(lines, |lines|, at, Messages(lines, |lines|))
  {
    output := [];
    var src, msg := "", "";
    for n := 0 to |lines|
      invariant output == LinesOf(Messages(lines, n))
      invariant src == LastSource(lines, n) && msg == LastTag(lines, n)
    {
      var line := lines[n];
      if Contains(line, "SRC=") {
        src := Strip(line);
      } else if Contains(line, "MSG=") {
        msg := TagFrom(line);
      } else if Contains(line, "DEF=") {
        var defn := Strip(line);
        output := output + ["MSG=" + msg + src + defn + "\n"];
      }
    }
    ghost var at := MessagesAreExtracted(lines, |lines|);
  }

  lemma LinesAreLines(ms: seq<Message>)
    requires forall m :: m in ms ==> WellFormed(m)
    ensures forall line :: line in Sort(LinesOf(ms)) ==> IsLine(line)
    ensures AllLines(Sort(LinesOf(ms))) && Sorted(Sort(LinesOf(ms)))
  {
    var lines := LinesOf(ms);
    SortSorts(lines);
    forall line | line in Sort(lines) ensures IsLine(line) {
      assert line in multiset(lines);
      var i :| 0 <= i < |lines| && lines[i] == line;
      assert ms[i] in ms;
      TagOfMessage(ms[i]);
    }
  }

  lemma ReadBackTag(ms: seq<Message>, k: nat) returns (i: nat)
    requires forall m :: m in ms ==> WellFormed(m)
    requires k < |Sort(LinesOf(ms))|
    ensures i < |ms| && ms[i].tag == TagOf(Sort(LinesOf(ms))[k])
  {
    var lines, line := LinesOf(ms), Sort(LinesOf(ms))[k];
    SortMembers(lines, line);
    i :| 0 <= i < |lines| && lines[i] == line;
    assert ms[i] in ms;
    TagOfMessage(ms[i]);
  }

  lemma WrittenTag(ms: seq<Message>, i: nat) returns (k: nat)
    requires forall m :: m in ms ==> WellFormed(m)
    requires i < |ms|
    ensures k < |Sort(LinesOf(ms))| && ms[i].tag == TagOf(Sort(LinesOf(ms))[k])
  {
    var lines := LinesOf(ms);
    assert ms[i] in ms && lines[i] in lines;
    SortMembers(lines, lines[i]);
    TagOfMessage(ms[i]);
    k :| 0 <= k < |Sort(lines)| && Sort(lines)[k] == lines[i];
  }

  /** From the extracted messages to the flags file: exactly their tags, each once. */
  lemma FlagsAreTheTags(ms: seq<Message>, t: string)
    requires forall m :: m in ms ==> WellFormed(m)
    ensures var parsed := ParseAll(Sort(LinesOf(ms)));
            && NoRepeats(Listed(parsed, |parsed|))
            && (t in Listed(parsed, |parsed|) <==> exists i :: 0 <= i < |ms| && ms[i].tag == t)
  {
    var parsed := ParseAll(Sort(LinesOf(ms)));
    ListedOnce(parsed, |parsed|);
    ListedHolds(parsed, |parsed|, t);
    TagsHold(parsed, |parsed|, t);
    if k :| 0 <= k < |parsed| && parsed[k].tag == t {
      var i := ReadBackTag(ms, k);
    }
    if i :| 0 <= i < |ms| && ms[i].tag == t {
      var k := WrittenTag(ms, i);
      assert parsed[k].tag == t;
    }
  }
}
