/** The three passes of debugFlagCollector.py together: what stands in the files written, told of the
    messages extracted. */
module DebugFlagPasses {
  import opened Common
  import opened Substrings
  import opened Text
  import opened DebugFlags

  // ------------------------------------------------------------ what is read back

  /** No "DEF=" stands before the definition. */
  ghost predicate Clear(m: Message) {
    !Contains("MSG=" + m.tag + m.src, "DEF=")
  }

  /** A message as the last pass finds it: its definition ends its line. */
  ghost function Written(m: Message): Message {
    Message(m.tag, m.src, m.defn + "\n")
  }

  ghost function AllWritten(ms: seq<Message>): seq<Message> {
    seq(|ms|, i requires 0 <= i < |ms| => Written(ms[i]))
  }

  lemma ReadBack(m: Message)
    requires WellFormed(m) && Clear(m)
    ensures Parse(m.Line()) == Written(m)
  {
    TagOfMessage(m);
    SourceRecoveredIff(m);
  }

  lemma AllReadBack(ms: seq<Message>)
    requires forall m :: m in ms ==> WellFormed(m) && Clear(m)
    ensures ParseAll(LinesOf(ms)) == AllWritten(ms)
  {
    forall i | 0 <= i < |ms| ensures ParseAll(LinesOf(ms))[i] == AllWritten(ms)[i] {
      assert ms[i] in ms;
      ReadBack(ms[i]);
    }
  }

  lemma ParseApart(line: string, lines: seq<string>)
    ensures ParseAll([line] + lines) == [Parse(line)] + ParseAll(lines)
  {
  }

  lemma {:induction false} InsertKeepsParsed(line: string, lines: seq<string>)
    ensures multiset(ParseAll(Insert(line, lines))) == multiset{Parse(line)} + multiset(ParseAll(lines))
  {
    if lines == [] || !Less(lines[0], line) {
      ParseApart(line, lines);
    } else {
      InsertKeepsParsed(line, lines[1..]);
      ParseApart(lines[0], Insert(line, lines[1..]));
      ParseApart(lines[0], lines[1..]);
      assert lines == [lines[0]] + lines[1..];
    }
  }

  lemma {:induction false} SortKeepsParsed(lines: seq<string>)
    ensures multiset(ParseAll(Sort(lines))) == multiset(ParseAll(lines))
  {
    if lines != [] {
      SortKeepsParsed(lines[1..]);
      InsertKeepsParsed(lines[0], Sort(lines[1..]));
      ParseApart(lines[0], lines[1..]);
      assert lines == [lines[0]] + lines[1..];
    }
  }

  /** The last pass finds exactly the messages written, in some order. */
  lemma AllAreFound(ms: seq<Message>)
    requires forall m :: m in ms ==> WellFormed(m) && Clear(m)
    ensures multiset(ParseAll(Sort(LinesOf(ms)))) == multiset(AllWritten(ms))
  {
    SortKeepsParsed(LinesOf(ms));
    AllReadBack(ms);
  }

  // ------------------------------------------------------------ what is filed under a tag

  lemma ListedNext(ms: seq<Message>, n: nat, i: nat)
    requires n < |ms| && i < |Listed(ms, n)|
    ensures i < |Listed(ms, n + 1)| && Listed(ms, n + 1)[i] == Listed(ms, n)[i]
  {
  }

  lemma ListedNew(ms: seq<Message>, n: nat)
    requires n < |ms| && ms[n].tag !in Tags(ms, n)
    ensures Listed(ms, n + 1)[|Listed(ms, n)|] == ms[n].tag && Number(ms, n) == |Listed(ms, n)| + 1
  {
    ListedOnce(ms, n);
    ListedOnce(ms, n + 1);
  }

  ghost predicate InPlace(ms: seq<Message>, n: nat, g: nat)
    requires n <= |ms| && g < |ms|
  {
    1 <= Number(ms, g) <= |Listed(ms, n)| && Listed(ms, n)[Number(ms, g) - 1] == ms[g].tag
  }

  lemma InPlaceNext(ms: seq<Message>, n: nat, g: nat)
    requires n < |ms| && g < |ms| && InPlace(ms, n, g)
    ensures InPlace(ms, n + 1, g)
  {
    ListedNext(ms, n, Number(ms, g) - 1);
  }

  /** A tag that is not new is that of the message before, and so is its number. */
  ghost predicate LikeBefore(ms: seq<Message>, g: nat)
    requires g < |ms|
  {
    ms[g].tag in Tags(ms, g) ==> g > 0 && ms[g - 1].tag == ms[g].tag && Number(ms, g - 1) == Number(ms, g)
  }

  lemma GroupedIsLikeBefore(ms: seq<Message>, g: nat)
    requires Grouped(ms) && g < |ms|
    ensures LikeBefore(ms, g)
  {
    NewWhenDifferent(ms, g);
    if g > 0 { OneNumberOneTag(ms, g - 1, g); }
  }

  lemma NewInPlace(ms: seq<Message>, g: nat)
    requires g < |ms| && ms[g].tag !in Tags(ms, g)
    ensures InPlace(ms, g + 1, g)
  {
    ListedNew(ms, g);
  }

  /** A tag's number is its place in the list, counted from 1. */
  lemma {:induction false} NumberIsPlace(ms: seq<Message>, n: nat, g: nat)
    requires g < n <= |ms| && forall i: nat :: i < |ms| ==> LikeBefore(ms, i)
    ensures InPlace(ms, n, g)
    decreases n, g
  {
    if g < n - 1 {
      NumberIsPlace(ms, n - 1, g);
      InPlaceNext(ms, n - 1, g);
    } else if ms[g].tag in Tags(ms, g) {
      assert LikeBefore(ms, g);
      NumberIsPlace(ms, g, g - 1);
      InPlaceLike(ms, g, g - 1, g);
      InPlaceNext(ms, g, g);
    } else {
      NewInPlace(ms, g);
    }
  }

  lemma InPlaceLike(ms: seq<Message>, n: nat, g: nat, h: nat)
    requires n <= |ms| && g < |ms| && h < |ms| && InPlace(ms, n, g)
    requires ms[g].tag == ms[h].tag && Number(ms, g) == Number(ms, h)
    ensures InPlace(ms, n, h)
  {
  }

  /** The first n messages that carry the tag. */
  ghost function Under(ms: seq<Message>, n: nat, tag: string): seq<Message>
    requires n <= |ms|
  {
    if n == 0 then []
    else Under(ms, n - 1, tag) + if ms[n - 1].tag == tag then [ms[n - 1]] else []
  }

  lemma CountOneMore(ms: seq<Message>, last: Message, m: Message)
    ensures multiset(ms + [last])[m] == multiset(ms)[m] + if last == m then 1 else 0
  {
  }

  lemma {:induction false} UnderCounts(ms: seq<Message>, n: nat, tag: string, m: Message)
    requires n <= |ms|
    ensures multiset(Under(ms, n, tag))[m] == if m.tag == tag then multiset(ms[..n])[m] else 0
  {
    if n > 0 {
      UnderCounts(ms, n - 1, tag, m);
      assert ms[..n] == ms[..n - 1] + [ms[n - 1]];
      CountOneMore(ms[..n - 1], ms[n - 1], m);
      CountOneMore(Under(ms, n - 1, tag), ms[n - 1], m);
      if ms[n - 1].tag != tag { assert Under(ms, n, tag) == Under(ms, n - 1, tag); }
    }
  }

  /** Which messages carry a tag does not depend on their order. */
  lemma UnderPermuted(a: seq<Message>, b: seq<Message>, tag: string)
    requires multiset(a) == multiset(b)
    ensures multiset(Under(a, |a|, tag)) == multiset(Under(b, |b|, tag))
  {
    forall m ensures multiset(Under(a, |a|, tag))[m] == multiset(Under(b, |b|, tag))[m] {
      UnderCounts(a, |a|, tag, m);
      UnderCounts(b, |b|, tag, m);
      assert a[..|a|] == a && b[..|b|] == b;
    }
  }

  lemma {:induction false} UnderIs(ms: seq<Message>, n: nat, tag: string)
    requires n <= |ms|
    ensures |Under(ms, n, tag)| == Count(ms, n, tag)
    ensures forall i :: 0 <= i < |Under(ms, n, tag)| ==> Under(ms, n, tag)[i].tag == tag
  {
    if n > 0 {
      UnderIs(ms, n - 1, tag);
    }
  }

  function DefinedUnder(number: nat): Entry -> bool {
    (e: Entry) => e.Definition? && e.number == number
  }

  /** Under one number: the i-th source and the i-th definition are those of the i-th message, and both
      are numbered i, counted from 1. */
  ghost predicate FiledAs(sources: seq<Entry>, defs: seq<Entry>, under: seq<Message>, number: nat) {
    && |sources| == |defs| == |under|
    && (forall i :: 0 <= i < |under| ==> sources[i] == Source(number, i + 1, under[i].src))
    && (forall i :: 0 <= i < |under| ==> defs[i] == Definition(number, i + 1, under[i].defn))
  }

  lemma FiledAsNext(sources: seq<Entry>, defs: seq<Entry>, under: seq<Message>, number: nat, m: Message)
    requires FiledAs(sources, defs, under, number)
    ensures FiledAs(sources + [Source(number, |under| + 1, m.src)], defs + [Definition(number, |under| + 1, m.defn)],
                    under + [m], number)
  {
  }

  lemma SameNumberIff(ms: seq<Message>, k: nat, g: nat)
    requires Grouped(ms) && k < |ms| && g < |ms|
    ensures Number(ms, k) == Number(ms, g) <==> ms[k].tag == ms[g].tag
  {
    OneNumberOneTag(ms, if g <= k then g else k, if g <= k then k else g);
  }

  lemma SelectedUnder(d: Entry, number: nat)
    requires d.Definition?
    ensures Selected(d, DefinedUnder(number)) == if d.number == number then [d] else []
  {
  }

  lemma CountNext(ms: seq<Message>, k: nat)
    requires k < |ms|
    ensures Count(ms, k + 1, ms[k].tag) == Count(ms, k, ms[k].tag) + 1
  {
  }

  /** What one more message adds to the definitions under the number of message g. */
  lemma DefinedStep(ms: seq<Message>, k: nat, g: nat)
    requires Grouped(ms) && k < |ms| && g < |ms|
    ensures var q, t := DefinedUnder(Number(ms, g)), ms[g].tag;
            Select(Entries(ms, k + 1), q) == Select(Entries(ms, k), q) +
              (if ms[k].tag == t then [Definition(Number(ms, g), Count(ms, k, t) + 1, ms[k].defn)] else [])
  {
    SameNumberIff(ms, k, g);
    CountNext(ms, k);
    SelectNextDefinition(ms, k, DefinedUnder(Number(ms, g)));
    SelectedUnder(Definition(Number(ms, k), Count(ms, k + 1, ms[k].tag), ms[k].defn), Number(ms, g));
  }

  /** Among the entries for the first n messages, under the number of message g. */
  ghost predicate FiledFor(ms: seq<Message>, n: nat, g: nat)
    requires n <= |ms| && g < |ms|
  {
    FiledAs(Select(Entries(ms, n), FiledUnder(Number(ms, g))),
            Select(Entries(ms, n), DefinedUnder(Number(ms, g))), Under(ms, n, ms[g].tag), Number(ms, g))
  }

  lemma FiledForNext(ms: seq<Message>, k: nat, g: nat)
    requires Grouped(ms) && k < |ms| && g < |ms| && FiledFor(ms, k, g)
    ensures FiledFor(ms, k + 1, g)
  {
    FiledStep(ms, k, g);
    DefinedStep(ms, k, g);
    UnderIs(ms, k, ms[g].tag);
    if ms[k].tag == ms[g].tag {
      SameNumberIff(ms, k, g);
      FiledAsNext(Select(Entries(ms, k), FiledUnder(Number(ms, g))),
                  Select(Entries(ms, k), DefinedUnder(Number(ms, g))),
                  Under(ms, k, ms[g].tag), Number(ms, g), ms[k]);
    } else {
      assert Under(ms, k + 1, ms[g].tag) == Under(ms, k, ms[g].tag);
    }
  }

  /** Under a tag's number stand the sources and the definitions of the messages with that tag, side by
      side and in order. */
  lemma {:induction false} FiledAreUnder(ms: seq<Message>, n: nat, g: nat)
    requires Grouped(ms) && n <= |ms| && g < |ms|
    ensures FiledFor(ms, n, g)
  {
    if n > 0 {
      FiledAreUnder(ms, n - 1, g);
      FiledForNext(ms, n - 1, g);
    }
  }

  /** A message with the tag in one place of the list, and its number. */
  lemma PlaceOf(ms: seq<Message>, k: nat) returns (g: nat)
    requires Grouped(ms) && k < |Listed(ms, |ms|)|
    ensures g < |ms| && ms[g].tag == Listed(ms, |ms|)[k] && Number(ms, g) == k + 1
  {
    var tag := Listed(ms, |ms|)[k];
    ListedHolds(ms, |ms|, tag);
    TagsHold(ms, |ms|, tag);
    g :| 0 <= g < |ms| && ms[g].tag == tag;
    forall i: nat | i < |ms| ensures LikeBefore(ms, i) {
      GroupedIsLikeBefore(ms, i);
    }
    NumberIsPlace(ms, |ms|, g);
    ListedOnce(ms, |ms|);
  }

  // ------------------------------------------------------------ how the entries are laid out

  /** A source and its definition stand side by side, and the first of a number follows its header. */
  ghost predicate LaidOut(entries: seq<Entry>)
    decreases |entries|
  {
    entries == [] ||
    (var n := |entries|;
     && n >= 2 && entries[n - 2].Source? && entries[n - 1].Definition?
     && entries[n - 2].number == entries[n - 1].number && entries[n - 2].sub == entries[n - 1].sub
     && if entries[n - 2].sub == 1 then
          && n >= 3 && entries[n - 3].Header? && entries[n - 3].number == entries[n - 2].number
          && LaidOut(entries[..n - 3])
        else LaidOut(entries[..n - 2]))
  }

  lemma LaidOutPair(before: seq<Entry>, s: Entry, d: Entry)
    requires LaidOut(before) && s.Source? && d.Definition? && s.number == d.number && s.sub == d.sub != 1
    ensures LaidOut(before + [s, d])
  {
    assert (before + [s, d])[..|before|] == before;
  }

  lemma LaidOutHeaded(before: seq<Entry>, h: Entry, s: Entry, d: Entry)
    requires LaidOut(before) && h.Header? && s.Source? && d.Definition?
    requires h.number == s.number == d.number && s.sub == d.sub == 1
    ensures LaidOut(before + [h, s, d])
  {
    assert (before + [h, s, d])[..|before|] == before;
  }

  lemma FirstWhenNew(ms: seq<Message>, k: nat)
    requires k < |ms|
    ensures ms[k].tag !in Tags(ms, k) <==> Count(ms, k + 1, ms[k].tag) == 1
  {
    TagsHold(ms, k, ms[k].tag);
    CountNext(ms, k);
  }

  lemma LaidOutMore(ms: seq<Message>, k: nat)
    requires k < |ms| && LaidOut(Entries(ms, k))
    ensures LaidOut(Entries(ms, k + 1))
  {
    var number, sub := Number(ms, k), Count(ms, k + 1, ms[k].tag);
    var s, d := Source(number, sub, ms[k].src), Definition(number, sub, ms[k].defn);
    FirstWhenNew(ms, k);
    EntriesNext(ms, k);
    if ms[k].tag in Tags(ms, k) {
      LaidOutPair(Entries(ms, k), s, d);
    } else {
      LaidOutHeaded(Entries(ms, k), Header(number, ms[k].tag), s, d);
    }
  }

  lemma {:induction false} EntriesAreLaidOut(ms: seq<Message>, n: nat)
    requires n <= |ms|
    ensures LaidOut(Entries(ms, n))
  {
    if n > 0 {
      EntriesAreLaidOut(ms, n - 1);
      LaidOutMore(ms, n - 1);
    }
  }

  /** All numbers used are those of listed tags. */
  lemma {:induction false} NumbersInRange(ms: seq<Message>, n: nat)
    requires n <= |ms|
    ensures forall e :: e in Entries(ms, n) ==> 1 <= e.number <= |Tags(ms, n)|
  {
    if n > 0 {
      NumbersInRange(ms, n - 1);
      SmallerSubset(Tags(ms, n - 1), Tags(ms, n));
      SmallerSubset({ms[n - 1].tag}, Tags(ms, n));
    }
  }

  // ------------------------------------------------------------ all three passes

  /** The source entries filed under the tag at place k of the list. */
  ghost function SourcesAt(entries: seq<Entry>, k: nat): seq<Entry> {
    Select(entries, FiledUnder(k + 1))
  }

  ghost function DefinitionsAt(entries: seq<Entry>, k: nat): seq<Entry> {
    Select(entries, DefinedUnder(k + 1))
  }

  /** What is filed under the tag at place k is, in some order, what these messages say. */
  ghost predicate FilesMessages(entries: seq<Entry>, k: nat, messages: seq<Message>) {
    exists order :: FilesInOrder(entries, k, order) && multiset(order) == multiset(messages)
  }

  ghost predicate FilesInOrder(entries: seq<Entry>, k: nat, messages: seq<Message>) {
    FiledAs(SourcesAt(entries, k), DefinitionsAt(entries, k), messages, k + 1)
  }

  lemma FilesParsed(lines: seq<string>, k: nat)
    requires Sorted(lines) && AllLines(lines) && k < |Listed(ParseAll(lines), |lines|)|
    ensures var parsed := ParseAll(lines);
            FilesInOrder(Entries(parsed, |lines|), k, Under(parsed, |lines|, Listed(parsed, |lines|)[k]))
  {
    SortedIsGrouped(lines);
    var g := PlaceOf(ParseAll(lines), k);
    FiledAreUnder(ParseAll(lines), |lines|, g);
  }

  lemma FilesExtracted(ms: seq<Message>, flags: seq<string>, entries: seq<Entry>, k: nat)
    requires forall m :: m in ms ==> WellFormed(m) && Clear(m)
    requires var parsed := ParseAll(Sort(LinesOf(ms)));
             flags == Listed(parsed, |parsed|) && entries == Entries(parsed, |parsed|)
    requires k < |flags|
    ensures FilesMessages(entries, k, Under(AllWritten(ms), |ms|, flags[k]))
  {
    var parsed := ParseAll(Sort(LinesOf(ms)));
    LinesAreLines(ms);
    FilesParsed(Sort(LinesOf(ms)), k);
    AllAreFound(ms);
    UnderPermuted(parsed, AllWritten(ms), flags[k]);
    assert FilesInOrder(entries, k, Under(parsed, |parsed|, flags[k]));
  }

  ghost function Sources(ms: seq<Message>): seq<string> {
    seq(|ms|, i requires 0 <= i < |ms| => ms[i].src)
  }

  /** The texts of the source entries written. */
  ghost function SourceTexts(entries: seq<Entry>): seq<string> {
    var written := Select(entries, IsSource);
    seq(|written|, i requires 0 <= i < |written| => if written[i].Source? then written[i].text else "")
  }

  ghost function SourcesRead(lines: seq<string>): seq<string> {
    seq(|lines|, i requires 0 <= i < |lines| => SrcOf(lines[i]))
  }

  lemma SourcesReadApart(line: string, lines: seq<string>)
    ensures SourcesRead([line] + lines) == [SrcOf(line)] + SourcesRead(lines)
  {
  }

  lemma {:induction false} InsertKeepsSources(line: string, lines: seq<string>)
    ensures multiset(SourcesRead(Insert(line, lines))) == multiset{SrcOf(line)} + multiset(SourcesRead(lines))
  {
    if lines == [] || !Less(lines[0], line) {
      SourcesReadApart(line, lines);
    } else {
      InsertKeepsSources(line, lines[1..]);
      SourcesReadApart(lines[0], Insert(line, lines[1..]));
      SourcesReadApart(lines[0], lines[1..]);
      assert lines == [lines[0]] + lines[1..];
    }
  }

  lemma {:induction false} SortKeepsSources(lines: seq<string>)
    ensures multiset(SourcesRead(Sort(lines))) == multiset(SourcesRead(lines))
  {
    if lines != [] {
      SortKeepsSources(lines[1..]);
      InsertKeepsSources(lines[0], Sort(lines[1..]));
      SourcesReadApart(lines[0], lines[1..]);
      assert lines == [lines[0]] + lines[1..];
    }
  }

  lemma SourcesReadBack(ms: seq<Message>)
    requires forall m :: m in ms ==> WellFormed(m) && Clear(m)
    ensures SourcesRead(LinesOf(ms)) == Sources(ms)
  {
    forall i | 0 <= i < |ms| ensures SourcesRead(LinesOf(ms))[i] == Sources(ms)[i] {
      assert ms[i] in ms;
      SourceRecoveredIff(ms[i]);
    }
  }

  lemma WrittenAreRead(lines: seq<string>)
    ensures SourceTexts(Entries(ParseAll(lines), |lines|)) == SourcesRead(lines)
  {
    SourcesConserved(ParseAll(lines), |lines|);
  }

  /** Together the source entries are the sources extracted. */
  lemma SourcesTogether(ms: seq<Message>)
    requires forall m :: m in ms ==> WellFormed(m) && Clear(m)
    ensures var parsed := ParseAll(Sort(LinesOf(ms)));
            multiset(SourceTexts(Entries(parsed, |parsed|))) == multiset(Sources(ms))
  {
    WrittenAreRead(Sort(LinesOf(ms)));
    SortKeepsSources(LinesOf(ms));
    SourcesReadBack(ms);
  }

  /** The files of the last pass: the flags listed once each, every entry under a listed tag, headers
      numbered by place, sources and definitions in pairs. */
  ghost predicate WellKept(flags: seq<string>, entries: seq<Entry>) {
    && NoRepeats(flags) && Numbered(Select(entries, IsHeader), flags) && LaidOut(entries)
    && (forall e :: e in entries ==> 1 <= e.number <= |flags|)
  }

  lemma KeepsWell(lines: seq<string>)
    ensures WellKept(Listed(ParseAll(lines), |lines|), Entries(ParseAll(lines), |lines|))
  {
    ListedOnce(ParseAll(lines), |lines|);
    HeadersInOrder(ParseAll(lines), |lines|);
    EntriesAreLaidOut(ParseAll(lines), |lines|);
    NumbersInRange(ParseAll(lines), |lines|);
  }

  /** extract_tags, sort_tags_alphabetically and remove_duplicate_flags on classified lines: the
      flags file lists exactly the tags extracted, each once; the k-th tag is headed k, counted from
      1, with its sources and definitions in pairs numbered 1, 2, 3, ...; and as long as no "DEF="
      stands before a definition, those pairs are the sources and definitions extracted with the tag. */
  method CollectFlags(lines: seq<string>) returns (flags: seq<string>, entries: seq<Entry>)
    requires forall i :: 0 <= i < |lines| ==> Classified(lines[i]) && HasMessage(lines, i) && HasSource(lines, i)
    ensures exists at: seq<nat> :: Extracted(lines, |lines|, at, Messages(lines, |lines|))
    ensures forall t :: t in flags <==> exists m :: m in Messages(lines, |lines|) && m.tag == t
    ensures WellKept(flags, entries)
    ensures var parsed := ParseAll(Sort(LinesOf(Messages(lines, |lines|))));
            && entries == Entries(parsed, |parsed|)
            && forall k :: 0 <= k < |flags| ==>
                 FilesInOrder(entries, k, Under(parsed, |parsed|, flags[k]))
    ensures (forall m :: m in Messages(lines, |lines|) ==> Clear(m)) ==>
              && multiset(SourceTexts(entries)) == multiset(Sources(Messages(lines, |lines|)))
              && forall k :: 0 <= k < |flags| ==>
                FilesMessages(entries, k,
                              Under(AllWritten(Messages(lines, |lines|)), |Messages(lines, |lines|)|, flags[k]))
  {
    ghost var ms := Messages(lines, |lines|);
    MessagesWellFormed(lines, |lines|);
    var extracted := ExtractTags(lines);
    LinesAreLines(ms);
    var sorted := Sort(extracted);
    flags, entries := RemoveDuplicateFlags(sorted);
    FlagsList(ms, flags);
    KeepsWell(sorted);
    forall k | 0 <= k < |flags|
      ensures FilesInOrder(entries, k, Under(ParseAll(sorted), |sorted|, flags[k]))
    {
      FilesParsed(sorted, k);
    }
    if forall m :: m in ms ==> Clear(m) {
      SourcesTogether(ms);
      forall k | 0 <= k < |flags| ensures FilesMessages(entries, k, Under(AllWritten(ms), |ms|, flags[k])) {
        FilesExtracted(ms, flags, entries, k);
      }
    }
  }

  lemma FlagsList(ms: seq<Message>, flags: seq<string>)
    requires forall m :: m in ms ==> WellFormed(m)
    requires var parsed := ParseAll(Sort(LinesOf(ms))); flags == Listed(parsed, |parsed|)
    ensures NoRepeats(flags)
    ensures forall t :: t in flags <==> exists m :: m in ms && m.tag == t
  {
    FlagsAreTheTags(ms, "");
    forall t ensures t in flags <==> exists m :: m in ms && m.tag == t {
      FlagsAreTheTags(ms, t);
    }
  }
}
