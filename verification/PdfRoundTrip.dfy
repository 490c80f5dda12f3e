/** The reader finds in a printed report what was printed. */
module PdfRoundTrip {
  import opened Domain
  import opened Ordering
  import opened PdfText
  import opened PdfNumbers
  import opened PdfDocument
  import opened PdfReader

  // ----- The cross-reference table -----

  lemma {:induction false} OffsetsGrow(objects: seq<string>, j: nat, k: nat)
    requires j <= k <= |objects|
    ensures Offset(objects, j) <= Offset(objects, k)
    decreases k
  {
    if j < k {
      OffsetsGrow(objects, j, k - 1);
    }
  }

  lemma EntryLength(offset: nat)
    ensures |Entry(offset)| == ENTRY_LENGTH <==> offset < TEN_DIGITS
    ensures |Entry(offset)| >= ENTRY_LENGTH
  {
    PaddedReads(offset);
    assert |END_ENTRY| == 10;
    if |Decimal(offset)| >= 10 {
      assert |Padded(offset)| == |Decimal(offset)|;
    }
  }

  /** Every entry has the twenty bytes of section 7.5.4 exactly when the last object starts below 10^10. */
  lemma {:induction false} EntriesHaveTwentyBytes(objects: seq<string>, k: nat)
    requires k <= |objects|
    ensures |Entries(objects, k)| >= ENTRY_LENGTH * (k + 1)
    ensures |Entries(objects, k)| == ENTRY_LENGTH * (k + 1) <==> k == 0 || Offset(objects, k - 1) < TEN_DIGITS
  {
    if k == 0 {
      assert |FREE_ENTRY| == 20;
    } else {
      EntriesHaveTwentyBytes(objects, k - 1);
      EntryLength(Offset(objects, k - 1));
      if k > 1 {
        OffsetsGrow(objects, k - 2, k - 1);
      }
    }
  }

  lemma EntryReads(before: string, offset: nat, more: string, n: nat)
    requires |before| == ENTRY_LENGTH * n && offset < TEN_DIGITS
    ensures EntryAt(before + (Entry(offset) + more), n) == Some(offset)
  {
    EntryLength(offset);
    PaddedReads(offset);
    var table := before + (Entry(offset) + more);
    assert table[ENTRY_LENGTH * n..ENTRY_LENGTH * (n + 1)] == Entry(offset);
    assert Entry(offset)[..10] == Padded(offset) && Entry(offset)[10..] == END_ENTRY;
  }

  /** Entry n of the table is the byte at which object n starts. */
  lemma {:induction false} EntryIsOffset(objects: seq<string>, k: nat, n: nat, more: string)
    requires 1 <= n <= k <= |objects| && Offset(objects, k - 1) < TEN_DIGITS
    ensures EntryAt(Entries(objects, k) + more, n) == Some(Offset(objects, n - 1))
    decreases k
  {
    var entry := Entry(Offset(objects, k - 1));
    assert Entries(objects, k) + more == Entries(objects, k - 1) + (entry + more);
    if n == k {
      EntriesHaveTwentyBytes(objects, k - 1);
      if k > 1 {
        OffsetsGrow(objects, k - 2, k - 1);
      }
      EntryReads(Entries(objects, k - 1), Offset(objects, k - 1), more, n);
    } else {
      OffsetsGrow(objects, k - 2, k - 1);
      EntryIsOffset(objects, k - 1, n, entry + more);
    }
  }

  // ----- The objects -----

  lemma {:induction false} BodySplits(objects: seq<string>, k: nat, n: nat) returns (more: string)
    requires 1 <= n <= k <= |objects|
    ensures Body(objects, k) == Body(objects, n - 1) + (Numbered(n, objects[n - 1]) + more)
    decreases k
  {
    if n == k {
      more := "";
      assert Numbered(n, objects[n - 1]) + "" == Numbered(n, objects[n - 1]);
    } else {
      var rest := BodySplits(objects, k - 1, n);
      more := rest + Numbered(k, objects[k - 1]);
      assert Body(objects, n - 1) + (Numbered(n, objects[n - 1]) + more)
          == (Body(objects, n - 1) + (Numbered(n, objects[n - 1]) + rest)) + Numbered(k, objects[k - 1]);
    }
  }

  function AfterHead(objects: seq<string>): string {
    Entries(objects, |objects|) + Trailer(|objects| + 1, Offset(objects, |objects|))
  }

  function SourceOf(objects: seq<string>): Source {
    Source(File(objects), AfterHead(objects), |objects| + 1)
  }

  predicate IsSmall(objects: seq<string>) {
    objects != [] && Offset(objects, |objects| - 1) < TEN_DIGITS
  }

  lemma NumberedReads(n: nat, value: string, more: string)
    ensures ReadPattern(Numbered(n, value) + more, ["", OBJECT]) == Reads([n], value + (END_OBJECT + more))
  {
    var texts := ["", OBJECT];
    var rest := value + (END_OBJECT + more);
    assert texts[1..] == [OBJECT] && [n][1..] == [];
    assert Print(texts, [n]) + rest == Numbered(n, value) + more by {
      assert Print([OBJECT], []) == OBJECT;
      assert Print(texts, [n]) == "" + (Decimal(n) + OBJECT);
    }
    PatternReads(texts, [n], rest);
  }

  lemma HeadReads(file: string, offset: nat, front: string, n: nat, value: string, more: string)
    requires file == front + (Numbered(n, value) + more) && offset == |front|
    ensures offset <= |file| && ReadPattern(file[offset..], ["", OBJECT]) == Reads([n], value + (END_OBJECT + more))
  {
    assert file[offset..] == Numbered(n, value) + more;
    NumberedReads(n, value, more);
  }

  lemma EntryLeads(objects: seq<string>, n: nat)
    requires IsSmall(objects) && 1 <= n <= |objects|
    ensures EntryAt(AfterHead(objects), n) == Some(Offset(objects, n - 1))
  {
    EntryIsOffset(objects, |objects|, n, Trailer(|objects| + 1, Offset(objects, |objects|)));
  }

  lemma OffsetLeads(objects: seq<string>, n: nat) returns (more: string)
    requires 1 <= n <= |objects|
    ensures Offset(objects, n - 1) <= |File(objects)|
    ensures ReadPattern(File(objects)[Offset(objects, n - 1)..], ["", OBJECT])
         == Reads([n], objects[n - 1] + (END_OBJECT + more))
  {
    var rest := BodySplits(objects, |objects|, n);
    var front, numbered, table := Body(objects, n - 1), Numbered(n, objects[n - 1]), Table(objects);
    more := rest + table;
    TreeGroups(front, numbered, rest, table);
    HeadReads(File(objects), Offset(objects, n - 1), front, n, objects[n - 1], more);
  }

  /** The table leads to object n, and nothing of the object is missing. */
  lemma ObjectIsFound(objects: seq<string>, n: nat) returns (more: string)
    requires IsSmall(objects) && 1 <= n <= |objects|
    ensures ObjectIn(SourceOf(objects), n) == Some(objects[n - 1] + (END_OBJECT + more))
  {
    EntryLeads(objects, n);
    more := OffsetLeads(objects, n);
  }

  lemma FinishedReads<T>(value: T, more: string)
    ensures Finished(Reads(value, END_OBJECT + more)) == Some(value)
  {
    SkipReads(END_OBJECT, more);
  }

  lemma CatalogReads(more: string)
    ensures Finished(ReadPattern(Catalog() + (END_OBJECT + more), [CATALOG, END_REF])) == Some([PAGES_NUMBER])
  {
    var texts := [CATALOG, END_REF];
    assert texts[1..] == [END_REF] && [PAGES_NUMBER][1..] == [];
    assert Print(texts, [PAGES_NUMBER]) == Catalog();
    PatternReads(texts, [PAGES_NUMBER], END_OBJECT + more);
    FinishedReads([PAGES_NUMBER], more);
  }

  predicate Divides(text: string) {
    text != "" && !IsDigit(text[0])
  }

  lemma ThreeNumbersRead(a: string, b: string, c: string, d: string, x: nat, y: nat, z: nat, rest: string)
    requires Divides(b) && Divides(c) && Divides(d)
    ensures ReadPattern((a + (Decimal(x) + (b + (Decimal(y) + (c + (Decimal(z) + d)))))) + rest, [a, b, c, d])
         == Reads([x, y, z], rest)
  {
    var texts, numbers := [a, b, c, d], [x, y, z];
    assert texts[1..] == [b, c, d] && numbers[1..] == [y, z];
    assert [b, c, d][1..] == [c, d] && [y, z][1..] == [z];
    assert [c, d][1..] == [d] && [z][1..] == [];
    assert Print([c, d], [z]) == c + (Decimal(z) + d);
    assert Print([b, c, d], [y, z]) == b + (Decimal(y) + Print([c, d], [z]));
    PatternReads(texts, numbers, rest);
  }

  lemma FixedTextsDivide()
    ensures Divides(MEDIA) && Divides(CONTENTS) && Divides(END_REF)
  {
    assert MEDIA[0] == REF[0] == ' ';
    assert CONTENTS[0] == ' ';
    assert END_REF[0] == ' ';
  }

  lemma PageReads(content: nat, font: nat, more: string)
    ensures Finished(ReadPattern(PageObject(content, font) + (END_OBJECT + more), [PAGE, MEDIA, CONTENTS, END_REF]))
         == Some([PAGES_NUMBER, font, content])
  {
    FixedTextsDivide();
    ThreeNumbersRead(PAGE, MEDIA, CONTENTS, END_REF, PAGES_NUMBER, font, content, END_OBJECT + more);
    FinishedReads([PAGES_NUMBER, font, content], more);
  }

  lemma CountReads(pages: nat, more: string)
    ensures Finished(ReadPattern(COUNT + (Decimal(pages) + END_DICTIONARY) + (END_OBJECT + more),
                                 [COUNT, END_DICTIONARY]))
         == Some([pages])
  {
    var texts := [COUNT, END_DICTIONARY];
    assert texts[1..] == [END_DICTIONARY] && [pages][1..] == [];
    assert Print(texts, [pages]) == COUNT + (Decimal(pages) + END_DICTIONARY);
    PatternReads(texts, [pages], END_OBJECT + more);
    FinishedReads([pages], more);
  }

  lemma LengthReads(length: nat, rest: string)
    ensures ReadPattern(LENGTH + (Decimal(length) + (STREAM + rest)), [LENGTH, STREAM]) == Reads([length], rest)
  {
    var texts := [LENGTH, STREAM];
    assert texts[1..] == [STREAM] && [length][1..] == [];
    assert Print(texts, [length]) + rest == LENGTH + (Decimal(length) + (STREAM + rest));
    PatternReads(texts, [length], rest);
  }

  // ----- Reading a report -----

  lemma FontIsFound(objects: seq<string>, n: nat)
    requires IsSmall(objects) && 1 <= n <= |objects| && objects[n - 1] == FONT
    ensures IsFont(SourceOf(objects), n)
  {
    var more := ObjectIsFound(objects, n);
    SkipReads(FONT, END_OBJECT + more);
    FinishedReads((), more);
  }

  /** The length of a content object is the number of bytes of its stream. */
  lemma ContentIsFound(objects: seq<string>, n: nat, stream: string)
    requires IsSmall(objects) && 1 <= n <= |objects| && objects[n - 1] == ContentObject(stream)
    ensures ContentIn(SourceOf(objects), n) == Some(stream)
  {
    var more := ObjectIsFound(objects, n);
    var rest := stream + (END_STREAM + (END_OBJECT + more));
    assert ContentObject(stream) + (END_OBJECT + more) == LENGTH + (Decimal(|stream|) + (STREAM + rest)) by {
      ContentGroups(LENGTH, Decimal(|stream|), STREAM, stream, END_STREAM, END_OBJECT + more);
    }
    LengthReads(|stream|, rest);
    assert rest[|stream|..] == END_STREAM + (END_OBJECT + more) && rest[..|stream|] == stream;
    SkipReads(END_STREAM, END_OBJECT + more);
    FinishedReads((), more);
  }

  lemma ContentGroups(a: string, b: string, c: string, d: string, e: string, f: string)
    ensures (a + (b + (c + (d + e)))) + f == a + (b + (c + (d + (e + f))))
  {
  }

  lemma ObjectsArePlaced(pages: seq<seq<string>>, k: nat)
    requires k < |pages|
    ensures Objects(pages)[PageNumber(k) - 1] == PageObject(ContentNumber(k), FontNumber(|pages|))
    ensures Objects(pages)[ContentNumber(k) - 1] == ContentObject(Stream(pages[k]))
    ensures Objects(pages)[FontNumber(|pages|) - 1] == FONT
  {
    assert RoleAt(PageNumber(k) - 1, |pages|) == PageRole(k);
    assert RoleAt(ContentNumber(k) - 1, |pages|) == ContentRole(k);
    assert RoleAt(FontNumber(|pages|) - 1, |pages|) == FontRole;
  }

  lemma PageObjectLeads(objects: seq<string>, n: nat, content: nat, font: nat, stream: string)
    requires IsSmall(objects) && 1 <= n <= |objects| && objects[n - 1] == PageObject(content, font)
    requires IsFont(SourceOf(objects), font) && ContentIn(SourceOf(objects), content) == Some(stream)
    ensures PageIn(SourceOf(objects), PAGES_NUMBER, n) == ReadStream(stream)
  {
    var more := ObjectIsFound(objects, n);
    PageReads(content, font, more);
  }

  lemma PlacedPageIsFound(objects: seq<string>, n: nat, content: nat, font: nat, page: seq<string>)
    requires IsSmall(objects) && 1 <= n <= |objects| && 1 <= content <= |objects| && 1 <= font <= |objects|
    requires objects[n - 1] == PageObject(content, font) && objects[font - 1] == FONT
    requires objects[content - 1] == ContentObject(Stream(page))
    ensures PageIn(SourceOf(objects), PAGES_NUMBER, n) == Some(SeenPage(page))
  {
    var stream := Stream(page);
    FontIsFound(objects, font);
    ContentIsFound(objects, content, stream);
    PageObjectLeads(objects, n, content, font, stream);
    StreamReads(page);
  }

  lemma PageIsFound(pages: seq<seq<string>>, k: nat)
    requires k < |pages| && IsSmall(Objects(pages))
    ensures PageIn(SourceOf(Objects(pages)), PAGES_NUMBER, PageNumber(k)) == Some(SeenPage(pages[k]))
  {
    var objects := Objects(pages);
    ObjectsArePlaced(pages, k);
    assert 1 <= PageNumber(k) < ContentNumber(k) < FontNumber(|pages|) == |objects|;
    PlacedPageIsFound(objects, PageNumber(k), ContentNumber(k), FontNumber(|pages|), pages[k]);
  }

  function SeenPages(pages: seq<seq<string>>): seq<seq<string>> {
    if pages == [] then [] else [SeenPage(pages[0])] + SeenPages(pages[1..])
  }

  lemma {:induction false} PagesAreFound(s: Source, pages: seq<seq<string>>, kids: seq<nat>)
    requires |kids| == |pages|
    requires forall k :: 0 <= k < |kids| ==> PageIn(s, PAGES_NUMBER, kids[k]) == Some(SeenPage(pages[k]))
    ensures PagesIn(s, PAGES_NUMBER, kids) == Some(SeenPages(pages))
    decreases |kids|
  {
    if kids != [] {
      PagesAreFound(s, pages[1..], kids[1..]);
    }
  }

  function ReferenceTexts(kids: seq<nat>): seq<string> {
    seq(|kids|, k requires 0 <= k < |kids| => Reference(kids[k]))
  }

  lemma LastReferenceReads(kid: nat, rest: string)
    requires rest != "" && rest[0] != ' '
    ensures ReadReferences(Reference(kid) + rest) == Reads([kid], rest)
  {
    Associative(Decimal(kid), REF, rest);
    NumberReads(kid, REF + rest);
    SkipReads(REF, rest);
    SkipOther(rest, BLANK);
  }

  lemma ReferenceReads(kid: nat, more: string)
    ensures ReadReferences(Reference(kid) + (BLANK + more)) == PdfText.After(kid, ReadReferences(more))
  {
    Associative(Decimal(kid), REF, BLANK + more);
    NumberReads(kid, REF + (BLANK + more));
    SkipReads(REF, BLANK + more);
    SkipReads(BLANK, more);
  }

  lemma ReferencesSplit(kids: seq<nat>)
    requires |kids| > 1
    ensures Join(ReferenceTexts(kids), BLANK) == Reference(kids[0]) + (BLANK + Join(ReferenceTexts(kids[1..]), BLANK))
  {
    assert ReferenceTexts(kids)[1..] == ReferenceTexts(kids[1..]);
  }

  lemma {:induction false} ReferencesRead(kids: seq<nat>, rest: string)
    requires kids != [] && rest != "" && rest[0] != ' '
    ensures ReadReferences(Join(ReferenceTexts(kids), BLANK) + rest) == Reads(kids, rest)
  {
    if |kids| == 1 {
      assert ReferenceTexts(kids) == [Reference(kids[0])] && kids == [kids[0]];
      LastReferenceReads(kids[0], rest);
    } else {
      var others := Join(ReferenceTexts(kids[1..]), BLANK);
      ReferencesRead(kids[1..], rest);
      ReferencesSplit(kids);
      TreeGroups(Reference(kids[0]), BLANK, others, rest);
      ReferenceReads(kids[0], others + rest);
      assert kids == [kids[0]] + kids[1..];
    }
  }

  lemma TreeReads(kids: seq<nat>, more: string)
    requires kids != []
    ensures Skip(PageTree(kids) + (END_OBJECT + more), PAGES).Reads?
    ensures var list := ReadReferences(Skip(PageTree(kids) + (END_OBJECT + more), PAGES).rest);
            && list.Reads? && list.value == kids
            && Finished(ReadPattern(list.rest, [COUNT, END_DICTIONARY])) == Some([|kids|])
  {
    var references := ReferenceTexts(kids);
    var count := COUNT + (Decimal(|kids|) + END_DICTIONARY);
    var rest := count + (END_OBJECT + more);
    TreeGroups(PAGES, Join(references, BLANK), count, END_OBJECT + more);
    SkipReads(PAGES, Join(references, BLANK) + rest);
    assert rest[0] == COUNT[0];
    ReferencesRead(kids, rest);
    CountReads(|kids|, more);
  }

  lemma TreeGroups(a: string, b: string, c: string, d: string)
    ensures (a + (b + c)) + d == a + (b + (c + d))
  {
  }

  lemma FirstObjects(pages: seq<seq<string>>)
    ensures Objects(pages)[0] == Catalog() && Objects(pages)[PAGES_NUMBER - 1] == PageTree(PageNumbers(|pages|))
  {
    assert RoleAt(0, |pages|) == CatalogRole && RoleAt(PAGES_NUMBER - 1, |pages|) == TreeRole;
  }

  lemma AllPagesAreFound(pages: seq<seq<string>>)
    requires IsSmall(Objects(pages))
    ensures PagesIn(SourceOf(Objects(pages)), PAGES_NUMBER, PageNumbers(|pages|)) == Some(SeenPages(pages))
  {
    var s, kids := SourceOf(Objects(pages)), PageNumbers(|pages|);
    forall k | 0 <= k < |kids| ensures PageIn(s, PAGES_NUMBER, kids[k]) == Some(SeenPage(pages[k])) {
      PageIsFound(pages, k);
    }
    PagesAreFound(s, pages, kids);
  }

  lemma TreeLeads(objects: seq<string>, kids: seq<nat>)
    requires IsSmall(objects) && |objects| >= PAGES_NUMBER && objects[PAGES_NUMBER - 1] == PageTree(kids) && kids != []
    ensures TreeIn(SourceOf(objects), PAGES_NUMBER) == PagesIn(SourceOf(objects), PAGES_NUMBER, kids)
  {
    var more := ObjectIsFound(objects, PAGES_NUMBER);
    TreeReads(kids, more);
  }

  /** The page tree leads to every page, in order, and counts them. */
  lemma TreeIsFound(pages: seq<seq<string>>)
    requires pages != [] && IsSmall(Objects(pages))
    ensures TreeIn(SourceOf(Objects(pages)), PAGES_NUMBER) == Some(SeenPages(pages))
  {
    FirstObjects(pages);
    TreeLeads(Objects(pages), PageNumbers(|pages|));
    AllPagesAreFound(pages);
  }

  lemma CatalogLeads(objects: seq<string>)
    requires IsSmall(objects) && objects[0] == Catalog()
    ensures CatalogIn(SourceOf(objects), 1) == TreeIn(SourceOf(objects), PAGES_NUMBER)
  {
    var more := ObjectIsFound(objects, 1);
    CatalogReads(more);
  }

  lemma CatalogIsFound(pages: seq<seq<string>>)
    requires pages != [] && IsSmall(Objects(pages))
    ensures CatalogIn(SourceOf(Objects(pages)), 1) == Some(SeenPages(pages))
  {
    FirstObjects(pages);
    CatalogLeads(Objects(pages));
    TreeIsFound(pages);
  }

  // ----- The whole file -----

  lemma EndingReads(front: string, before: string, start: string, xref: string, end: string)
    requires AllDigits(xref) && xref != "" && start != "" && !IsDigit(start[|start| - 1])
    ensures var file := front + ((before + start) + (xref + end));
            var text := file[..|file| - |end|];
            && EndsWith(file, end) && DigitsBefore(text) == |xref| && text[|text| - |xref|..] == xref
            && EndsWith(text[..|text| - |xref|], start)
  {
    var file := front + ((before + start) + (xref + end));
    var head := front + (before + start);
    assert file[..|file| - |end|] == head + xref;
    StopThenDigits(head, xref);
    assert (head + xref)[..|head|] == head;
  }

  lemma StartXrefReads(front: string, xref: nat)
    ensures StartXref(front + (START_XREF + (Decimal(xref) + END_OF_FILE))) == Some(xref)
  {
    DecimalReads(xref);
    assert START[|START| - 1] == '\n';
    assert START_XREF == (END_REF + "\n") + START;
    EndingReads(front, END_REF + "\n", START, Decimal(xref), END_OF_FILE);
  }

  /** `startxref` gives the byte at which the table starts. */
  lemma StartIsFound(objects: seq<string>)
    ensures StartXref(File(objects)) == Some(Offset(objects, |objects|))
    ensures File(objects)[Offset(objects, |objects|)..] == Table(objects) && XREF <= Table(objects)
  {
    var size, xref := |objects| + 1, Offset(objects, |objects|);
    var front := Body(objects, |objects|) + (XREF + (Decimal(size) + ("\n" + (Entries(objects, |objects|)
                   + (TRAILER + (Decimal(size) + (ROOT + Decimal(1))))))));
    FileGroups(Body(objects, |objects|), XREF, Decimal(size), "\n", Entries(objects, |objects|),
               TRAILER + (Decimal(size) + (ROOT + Decimal(1))), START_XREF + (Decimal(xref) + END_OF_FILE));
    TrailerGroups(TRAILER, Decimal(size), ROOT, Decimal(1), START_XREF + (Decimal(xref) + END_OF_FILE));
    StartXrefReads(front, xref);
  }

  lemma FileGroups(a: string, b: string, c: string, d: string, e: string, f: string, g: string)
    ensures (a + (b + (c + (d + (e + f))))) + g == a + (b + (c + (d + (e + (f + g)))))
  {
  }

  lemma TrailerGroups(a: string, b: string, c: string, d: string, e: string)
    ensures (a + (b + (c + d))) + e == a + (b + (c + (d + e)))
  {
  }

  lemma TableReads(objects: seq<string>)
    ensures ReadPattern(Table(objects), [XREF, "\n"]) == Reads([|objects| + 1], AfterHead(objects))
  {
    var texts, size := [XREF, "\n"], |objects| + 1;
    assert texts[1..] == ["\n"] && [size][1..] == [];
    assert Print(texts, [size]) == XREF + (Decimal(size) + "\n");
    assert Print(texts, [size]) + AfterHead(objects) == Table(objects);
    PatternReads(texts, [size], AfterHead(objects));
  }

  lemma TrailerReads(size: nat, xref: nat)
    ensures ReadPattern(Trailer(size, xref), [TRAILER, ROOT, START_XREF, END_OF_FILE]) == Reads([size, 1, xref], "")
  {
    assert ROOT[0] == ' ' && START_XREF[0] == END_REF[0] == ' ' && END_OF_FILE[0] == '\n';
    ThreeNumbersRead(TRAILER, ROOT, START_XREF, END_OF_FILE, size, 1, xref, "");
    assert Trailer(size, xref) + "" == Trailer(size, xref);
  }

  lemma {:induction false} EntriesHaveNoLetterT(objects: seq<string>, k: nat)
    requires k <= |objects|
    ensures 't' !in Entries(objects, k)
  {
    if k > 0 {
      EntriesHaveNoLetterT(objects, k - 1);
      DecimalReads(Offset(objects, k - 1));
    }
  }

  /** With an offset of more than ten digits the trailer is not where twenty bytes an entry put it. */
  lemma TrailerIsDisplaced(objects: seq<string>)
    requires objects != [] && !IsSmall(objects)
    ensures ENTRY_LENGTH * (|objects| + 1) <= |AfterHead(objects)|
    ensures ReadPattern(AfterHead(objects)[ENTRY_LENGTH * (|objects| + 1)..],
                        [TRAILER, ROOT, START_XREF, END_OF_FILE]).Fails?
  {
    var entries, at := Entries(objects, |objects|), ENTRY_LENGTH * (|objects| + 1);
    EntriesHaveTwentyBytes(objects, |objects|);
    EntriesHaveNoLetterT(objects, |objects|);
    assert AfterHead(objects)[at..][0] == entries[at];
    assert TRAILER[0] == 't';
    SkipOther(AfterHead(objects)[at..], TRAILER);
  }

  lemma TrailerLeads(objects: seq<string>)
    requires objects != []
    ensures ReadFromTrailer(SourceOf(objects)) == if IsSmall(objects) then CatalogIn(SourceOf(objects), 1) else None
  {
    if IsSmall(objects) {
      EntriesHaveTwentyBytes(objects, |objects|);
      assert AfterHead(objects)[ENTRY_LENGTH * (|objects| + 1)..] == Trailer(|objects| + 1, Offset(objects, |objects|));
      TrailerReads(|objects| + 1, Offset(objects, |objects|));
    } else {
      TrailerIsDisplaced(objects);
    }
  }

  lemma ReaderFollowsTable(objects: seq<string>)
    requires objects != []
    ensures ReadDocument(File(objects)) == if IsSmall(objects) then CatalogIn(SourceOf(objects), 1) else None
  {
    StartIsFound(objects);
    TableReads(objects);
    TrailerLeads(objects);
  }

  /** A report is read back page by page exactly when its last object starts below byte 10^10. */
  lemma ReportReadsBack(lines: seq<string>)
    ensures ReadDocument(File(Objects(PagesOf(lines)))) == Some(SeenPages(PagesOf(lines)))
       <==> IsSmall(Objects(PagesOf(lines)))
  {
    PiecesAre(Wrapped(lines), LINES_PER_PAGE);
    ReaderFollowsTable(Objects(PagesOf(lines)));
    if IsSmall(Objects(PagesOf(lines))) {
      CatalogIsFound(PagesOf(lines));
    }
  }

  // ----- The text of the report -----

  predicate IsPlain(text: string) {
    forall i :: 0 <= i < |text| ==> text[i] as int < 256 && text[i] != '\r'
  }

  predicate ArePlain(lines: seq<string>) {
    forall i :: 0 <= i < |lines| ==> IsPlain(lines[i])
  }

  lemma PlainConcat(a: string, b: string)
    ensures IsPlain(a + b) <==> IsPlain(a) && IsPlain(b)
  {
    assert forall i :: 0 <= i < |a| ==> (a + b)[i] == a[i];
    assert forall i :: 0 <= i < |b| ==> (a + b)[|a| + i] == b[i];
  }

  lemma {:induction false} PlainParts(parts: seq<string>)
    ensures IsPlain(Flatten(parts)) <==> ArePlain(parts)
  {
    if parts != [] {
      PlainParts(parts[1..]);
      PlainConcat(parts[0], Flatten(parts[1..]));
      assert parts == [parts[0]] + parts[1..];
    }
  }

  lemma PlainLines(a: seq<string>, b: seq<string>)
    ensures ArePlain(a + b) <==> ArePlain(a) && ArePlain(b)
  {
    assert forall i :: 0 <= i < |a| ==> (a + b)[i] == a[i];
    assert forall i :: 0 <= i < |b| ==> (a + b)[|a| + i] == b[i];
  }

  lemma SeenIsPlain(line: string)
    ensures Seen(line) == line <==> IsPlain(line)
  {
    SafeReadsBack(line, "");
    if '\r' in line {
      var i :| 0 <= i < |line| && line[i] == '\r';
    }
  }

  lemma SeenPageIsPlain(page: seq<string>)
    ensures SeenPage(page) == page <==> ArePlain(page)
  {
    forall i | 0 <= i < |page| ensures SeenPage(page)[i] == page[i] <==> IsPlain(page[i]) {
      SeenIsPlain(page[i]);
    }
  }

  lemma {:induction false} SeenPagesArePlain(pages: seq<seq<string>>)
    ensures SeenPages(pages) == pages <==> ArePlain(Flatten(pages))
  {
    if pages != [] {
      SeenPagesArePlain(pages[1..]);
      SeenPageIsPlain(pages[0]);
      PlainLines(pages[0], Flatten(pages[1..]));
      assert pages == [pages[0]] + pages[1..];
    }
  }

  lemma SeenMeansPlain(lines: seq<string>)
    ensures SeenPages(PagesOf(lines)) == PagesOf(lines) <==> ArePlain(lines)
  {
    PiecesAre(Wrapped(lines), LINES_PER_PAGE);
    WrappingKeepsText(lines);
    SeenPagesArePlain(PagesOf(lines));
    PlainParts(Wrapped(lines));
    PlainParts(lines);
  }

  /** The wrapped lines themselves are read back exactly when the report has Latin-1 text without carriage returns. */
  lemma ReportIsFaithful(lines: seq<string>)
    requires IsSmall(Objects(PagesOf(lines)))
    ensures ReadDocument(File(Objects(PagesOf(lines)))) == Some(PagesOf(lines)) <==> ArePlain(lines)
  {
    ReportReadsBack(lines);
    SeenMeansPlain(lines);
  }

  lemma PieceIsPart<T>(items: seq<T>, n: nat, piece: seq<T>)
    requires n > 0 && piece in Pieces(items, n)
    ensures |piece| <= n && forall x :: x in piece ==> x in items
  {
    PiecesAre(items, n);
    forall x | x in piece ensures x in items {
      InFlatten(Pieces(items, n), piece, x);
    }
  }

  lemma PageIsNarrow(lines: seq<string>, page: seq<string>)
    requires page in PagesOf(lines)
    ensures |page| <= LINES_PER_PAGE && forall w :: w in page ==> |w| <= WIDTH
  {
    PieceIsPart(Wrapped(lines), LINES_PER_PAGE, page);
    WrappedIsNarrow(lines);
  }

  /** The pages hold the whole text of the report and fit the paper. */
  lemma PagesHoldTheText(lines: seq<string>)
    ensures Flatten(Flatten(PagesOf(lines))) == Flatten(lines)
    ensures PagesOf(lines) != []
    ensures forall page :: page in PagesOf(lines) ==> |page| <= LINES_PER_PAGE && forall w :: w in page ==> |w| <= WIDTH
  {
    PiecesAre(Wrapped(lines), LINES_PER_PAGE);
    WrappingKeepsText(lines);
    forall page | page in PagesOf(lines) ensures |page| <= LINES_PER_PAGE && forall w :: w in page ==> |w| <= WIDTH {
      PageIsNarrow(lines, page);
    }
  }

  lemma {:induction false} InFlatten<T>(parts: seq<seq<T>>, part: seq<T>, x: T)
    requires part in parts && x in part
    ensures x in Flatten(parts)
  {
    if part != parts[0] {
      InFlatten(parts[1..], part, x);
    }
  }
}
