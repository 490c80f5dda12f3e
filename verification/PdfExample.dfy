/**
 * A report whose text is not found in its own file: the line of dates has an em dash for every date that is not set.
 */
module PdfExample {
  import opened Domain
  import opened PdfText
  import opened PdfNumbers
  import opened PdfDocument
  import opened PdfReader
  import opened PdfRoundTrip

  const DASH := "\U{2014}"

  function Dates(date: string): string {
    "Opened: " + date + " | Closed: " + date + " | Due: " + date
  }

  // ----- A report of one line is small -----

  lemma {:induction false} DecimalIsShort(n: nat)
    ensures |Decimal(n)| <= n + 1
    decreases n
  {
    if n >= 10 {
      DecimalIsShort(n / 10);
    }
  }

  lemma {:induction false} GuardIsShort(text: string, c: char)
    ensures |Guard(text, c)| <= 2 * |text|
  {
    if text != "" {
      GuardIsShort(text[1..], c);
    }
  }

  lemma SafeIsShort(line: string)
    ensures |Safe(line)| <= 8 * |line|
  {
    GuardIsShort(Latin1(line), '\\');
    GuardIsShort(Guard(Latin1(line), '\\'), '(');
    GuardIsShort(Guard(Guard(Latin1(line), '\\'), '('), ')');
  }

  lemma CommandIsShort(line: string)
    ensures |Command(line)| <= 8 * |line| + 8
  {
    SafeIsShort(line);
  }

  lemma StreamIsShort(line: string)
    ensures |Stream([line])| <= 8 * |line| + 40
  {
    var parts := [BEGIN_TEXT, Command(line), END_TEXT];
    CommandIsShort(line);
    assert [BEGIN_TEXT] + Commands([line]) == parts;
    assert parts[1..] == [Command(line), END_TEXT] && parts[1..][1..] == [END_TEXT];
    assert Join([END_TEXT], " ") == END_TEXT;
    assert Join(parts[1..], " ") == Command(line) + (" " + END_TEXT);
    assert |BEGIN_TEXT| == 27;
  }

  lemma NumberedIsShort(n: nat, value: string)
    ensures |Numbered(n, value)| <= n + |value| + 20
  {
    DecimalIsShort(n);
  }

  lemma ContentIsShort(stream: string)
    ensures |ContentObject(stream)| <= 2 * |stream| + 60
  {
    DecimalIsShort(|stream|);
    assert |LENGTH| == 11 && |STREAM| == 11 && |END_STREAM| == 10;
  }

  lemma PageTreeIsShort()
    ensures |PageTree(PageNumbers(1))| <= 100
  {
    var references := [Reference(3)];
    DecimalIsShort(3);
    DecimalIsShort(1);
    assert PageNumbers(1) == [3];
    assert PageTree([3]) == PAGES + (Join(references, " ") + (COUNT + (Decimal(1) + END_DICTIONARY)));
    assert Join(references, " ") == Reference(3);
    assert |PAGES| == 23 && |COUNT| == 9;
  }

  lemma PageIsShort()
    ensures |PageObject(ContentNumber(0), FontNumber(1))| <= 200
  {
    DecimalIsShort(2);
    DecimalIsShort(4);
    DecimalIsShort(5);
    assert |PAGE| == 23 && |MEDIA| == 56 && |CONTENTS| == 21;
  }

  lemma CatalogIsShort()
    ensures |Catalog()| <= 60
  {
    DecimalIsShort(2);
    assert |CATALOG| == 25;
  }

  /** A report of one line stays below ten digits, unless the line is very long. */
  lemma OneLineIsSmall(line: string)
    requires |line| <= WIDTH
    ensures IsSmall(Objects([[line]]))
  {
    var objects, pages := Objects([[line]]), [[line]];
    CatalogIsShort();
    PageTreeIsShort();
    PageIsShort();
    StreamIsShort(line);
    ContentIsShort(Stream([line]));
    assert objects[0] == Catalog() && objects[1] == PageTree(PageNumbers(1));
    assert objects[2] == PageObject(ContentNumber(0), FontNumber(1)) && objects[3] == ContentObject(Stream(pages[0]));
    BodyIsShort(objects, 4, 2000);
  }

  lemma {:induction false} BodyIsShort(objects: seq<string>, k: nat, bound: nat)
    requires k <= |objects| && forall i :: 0 <= i < k ==> |objects[i]| <= bound
    ensures |Body(objects, k)| <= 20 + k * (bound + k + 20)
  {
    if k > 0 {
      BodyIsShort(objects, k - 1, bound);
      NumberedIsShort(k, objects[k - 1]);
      assert (k - 1) * (bound + k - 1 + 20) <= (k - 1) * (bound + k + 20);
    }
  }

  // ----- What is found -----

  lemma OnePage(line: string)
    requires |line| <= WIDTH
    ensures PagesOf([line]) == [[line]]
  {
    assert [line][1..] == [] && Pieces(line, WIDTH) == [line];
    assert Wrapped([line]) == [line] + Wrapped([]) == [line];
  }

  lemma PageIsSeen(line: string)
    ensures SeenPages([[line]]) == [[Seen(line)]]
  {
    assert SeenPage([line]) == [Seen(line)];
    assert [[line]][1..] == [];
  }

  lemma SmallIsFound(lines: seq<string>, pages: seq<seq<string>>)
    requires PagesOf(lines) == pages && IsSmall(Objects(pages))
    ensures ReadDocument(File(Objects(pages))) == Some(SeenPages(pages))
  {
    ReportReadsBack(lines);
  }

  /** One line is found as it is seen. */
  lemma OneLineIsFound(line: string)
    requires |line| <= WIDTH
    ensures ReadDocument(File(Objects([[line]]))) == Some([[Seen(line)]])
  {
    OnePage(line);
    OneLineIsSmall(line);
    SmallIsFound([line], [[line]]);
    PageIsSeen(line);
  }

  lemma Latin1Concat(a: string, b: string)
    ensures Latin1(a + b) == Latin1(a) + Latin1(b)
  {
  }

  lemma PlainStays(text: string)
    requires IsPlain(text)
    ensures Latin1(text) == text
  {
  }

  lemma DatesInLatin1(date: string)
    ensures Latin1(Dates(date)) == Dates(Latin1(date))
  {
    var first, closed, due := "Opened: ", " | Closed: ", " | Due: ";
    PlainStays(first);
    PlainStays(closed);
    PlainStays(due);
    Latin1Concat(first, date);
    Latin1Concat(first + date, closed);
    Latin1Concat(first + date + closed, date);
    Latin1Concat(first + date + closed + date, due);
    Latin1Concat(first + date + closed + date + due, date);
  }

  lemma DatesArePlain(date: string)
    requires IsPlain(date)
    ensures IsPlain(Dates(date))
  {
    var first, closed, due := "Opened: ", " | Closed: ", " | Due: ";
    assert IsPlain(first) && IsPlain(closed) && IsPlain(due);
    PlainConcat(first, date);
    PlainConcat(first + date, closed);
    PlainConcat(first + date + closed, date);
    PlainConcat(first + date + closed + date, due);
    PlainConcat(first + date + closed + date + due, date);
  }

  lemma DashesAreSeenAs()
    ensures Seen(Dates(DASH)) == Dates("?")
  {
    DatesInLatin1(DASH);
    assert Latin1(DASH) == "?";
    DatesArePlain("?");
    PlainStays(Dates("?"));
    SafeReadsBack(Dates("?"), "");
  }

  lemma DashesDiffer()
    ensures Dates(DASH) != Dates("?") && !ArePlain([Dates(DASH)])
  {
    assert Dates(DASH)[8] == DASH[0] && Dates("?")[8] == '?';
    assert !IsPlain([Dates(DASH)][0]);
  }

  /** The reader finds question marks where the report has em dashes. */
  lemma DashesAreNotFound()
    ensures PagesOf([Dates(DASH)]) == [[Dates(DASH)]] && Dates(DASH) != Dates("?") && !ArePlain([Dates(DASH)])
    ensures ReadDocument(File(Objects([[Dates(DASH)]]))) == Some([[Dates("?")]])
  {
    OnePage(Dates(DASH));
    OneLineIsFound(Dates(DASH));
    DashesAreSeenAs();
    DashesDiffer();
  }

  // ----- A report of very many lines -----

  lemma {:induction false} WrappedIsLonger(lines: seq<string>)
    ensures |Wrapped(lines)| >= |lines|
  {
    if lines != [] {
      WrappedIsLonger(lines[1..]);
      PiecesAreNarrow(lines[0]);
    }
  }

  lemma {:induction false} PiecesCover<T>(items: seq<T>, n: nat)
    requires n > 0
    ensures |items| <= n * |Pieces(items, n)|
    decreases |items|
  {
    if |items| > n {
      PiecesCover(items[n..], n);
      FirstPiece(items, n);
      assert n * |Pieces(items, n)| == n + n * |Pieces(items[n..], n)|;
    }
  }

  lemma {:induction false} OffsetGrows(objects: seq<string>, k: nat)
    requires k <= |objects|
    ensures Offset(objects, k) >= k
  {
    if k > 0 {
      OffsetGrows(objects, k - 1);
    }
  }

  /** The lines of five thousand million pages, each of which has two objects. */
  const MANY_LINES: nat := LINES_PER_PAGE * 5_000_000_000

  lemma LongReportHasPages(lines: seq<string>)
    requires |lines| >= MANY_LINES
    ensures |PagesOf(lines)| >= 5_000_000_000
  {
    WrappedIsLonger(lines);
    PiecesCover(Wrapped(lines), LINES_PER_PAGE);
  }

  lemma NotSmall(objects: seq<string>, last: nat, offset: nat)
    requires last == |objects| - 1 && offset == Offset(objects, last) && offset >= TEN_DIGITS
    ensures !IsSmall(objects)
  {
  }

  lemma ManyObjectsAreNotSmall(objects: seq<string>)
    requires |objects| > TEN_DIGITS
    ensures !IsSmall(objects)
  {
    var last := |objects| - 1;
    var offset := Offset(objects, last);
    OffsetGrows(objects, last);
    NotSmall(objects, last, offset);
  }

  /** A report of so many lines, whatever they are, is not found: its last object starts at byte 10^10 or later. */
  lemma LongReportIsNotFound(lines: seq<string>)
    requires |lines| >= MANY_LINES
    ensures !IsSmall(Objects(PagesOf(lines)))
    ensures ReadDocument(File(Objects(PagesOf(lines)))) != Some(SeenPages(PagesOf(lines)))
  {
    LongReportHasPages(lines);
    ManyObjectsAreNotSmall(Objects(PagesOf(lines)));
    ReportReadsBack(lines);
  }
}
