/** Every character of a report is one byte, so that positions in its text are the byte offsets of the file. */
module PdfBytes {
  import opened PdfText
  import opened PdfNumbers
  import opened PdfDocument

  lemma Joined(a: string, b: string)
    requires IsLatin1(a) && IsLatin1(b)
    ensures IsLatin1(a + b)
  {
  }

  lemma NumberBetween(a: string, n: nat, b: string)
    requires IsLatin1(a) && IsLatin1(b)
    ensures IsLatin1(a + (Decimal(n) + b))
  {
    DecimalIsLatin1(n);
  }

  lemma {:induction false} JoinIsLatin1(parts: seq<string>, separator: string)
    requires IsLatin1(separator) && forall i :: 0 <= i < |parts| ==> IsLatin1(parts[i])
    ensures IsLatin1(Join(parts, separator))
  {
    if |parts| > 1 {
      JoinIsLatin1(parts[1..], separator);
      Joined(separator, Join(parts[1..], separator));
    }
  }

  lemma CommandIsLatin1(line: string)
    ensures IsLatin1(Command(line))
  {
    SafeReadsBack(line, "");
    assert IsLatin1(NEXT_LINE) && IsLatin1("(") && IsLatin1(")") && IsLatin1(SHOW);
    Joined(")", SHOW);
    Joined(Safe(line), ")" + SHOW);
  }

  lemma StreamIsLatin1(page: seq<string>)
    ensures IsLatin1(Stream(page))
  {
    var parts := [BEGIN_TEXT] + Commands(page);
    assert IsLatin1(BEGIN_TEXT) && IsLatin1(END_TEXT) && IsLatin1(" ");
    forall i | 0 <= i < |parts| ensures IsLatin1(parts[i]) {
      if 1 <= i <= |page| {
        CommandIsLatin1(page[i - 1]);
      }
    }
    JoinIsLatin1(parts, " ");
  }

  lemma CatalogIsLatin1()
    ensures IsLatin1(Catalog()) && IsLatin1(FONT)
  {
    assert IsLatin1(CATALOG) && IsLatin1(END_REF);
    NumberBetween(CATALOG, PAGES_NUMBER, END_REF);
    Joined("<< /Type /Font /Subtype /Type1", " /BaseFont /Helvetica >>");
  }

  lemma TreeIsLatin1(kids: seq<nat>)
    ensures IsLatin1(PageTree(kids))
  {
    var references := seq(|kids|, k requires 0 <= k < |kids| => Reference(kids[k]));
    assert IsLatin1(REF) && IsLatin1(" ") && IsLatin1(PAGES) && IsLatin1(COUNT) && IsLatin1(END_DICTIONARY);
    forall i | 0 <= i < |references| ensures IsLatin1(references[i]) {
      DecimalIsLatin1(kids[i]);
      Joined(Decimal(kids[i]), REF);
    }
    JoinIsLatin1(references, " ");
    NumberBetween(COUNT, |kids|, END_DICTIONARY);
    Joined(Join(references, " "), COUNT + (Decimal(|kids|) + END_DICTIONARY));
    Joined(PAGES, Join(references, " ") + (COUNT + (Decimal(|kids|) + END_DICTIONARY)));
  }

  lemma MediaIsLatin1()
    ensures IsLatin1(MEDIA)
  {
    Joined(" /MediaBox [0 0 595 842]", " /Resources << /Font << /F1 ");
  }

  lemma PageIsLatin1(content: nat, font: nat)
    ensures IsLatin1(PageObject(content, font))
  {
    MediaIsLatin1();
    assert IsLatin1(PAGE) && IsLatin1(CONTENTS) && IsLatin1(END_REF);
    NumberBetween(CONTENTS, content, END_REF);
    NumberBetween(MEDIA, font, CONTENTS + (Decimal(content) + END_REF));
    NumberBetween(PAGE, PAGES_NUMBER, MEDIA + (Decimal(font) + (CONTENTS + (Decimal(content) + END_REF))));
  }

  lemma ContentIsLatin1(stream: string)
    requires IsLatin1(stream)
    ensures IsLatin1(ContentObject(stream))
  {
    assert IsLatin1(LENGTH) && IsLatin1(STREAM) && IsLatin1(END_STREAM);
    Joined(stream, END_STREAM);
    Joined(STREAM, stream + END_STREAM);
    NumberBetween(LENGTH, |stream|, STREAM + (stream + END_STREAM));
  }

  lemma ObjectIsLatin1(pages: seq<seq<string>>, i: nat)
    requires i < FontNumber(|pages|)
    ensures IsLatin1(Objects(pages)[i])
  {
    var role := RoleAt(i, |pages|);
    match role
    case TreeRole => TreeIsLatin1(PageNumbers(|pages|));
    case PageRole(k) => PageIsLatin1(ContentNumber(k), FontNumber(|pages|));
    case ContentRole(k) => StreamIsLatin1(pages[k]); ContentIsLatin1(Stream(pages[k]));
    case _ => CatalogIsLatin1();
  }

  lemma {:induction false} BodyIsLatin1(objects: seq<string>, k: nat)
    requires k <= |objects| && forall i :: 0 <= i < |objects| ==> IsLatin1(objects[i])
    ensures IsLatin1(Body(objects, k))
  {
    if k > 0 {
      BodyIsLatin1(objects, k - 1);
      assert IsLatin1("") && IsLatin1(OBJECT) && IsLatin1(END_OBJECT);
      Joined(objects[k - 1], END_OBJECT);
      Joined(OBJECT, objects[k - 1] + END_OBJECT);
      DecimalIsLatin1(k);
      Joined(Decimal(k), OBJECT + (objects[k - 1] + END_OBJECT));
      Joined(Body(objects, k - 1), Numbered(k, objects[k - 1]));
    }
  }

  lemma {:induction false} EntriesAreLatin1(objects: seq<string>, k: nat)
    requires k <= |objects|
    ensures IsLatin1(Entries(objects, k))
  {
    if k > 0 {
      EntriesAreLatin1(objects, k - 1);
      DecimalIsLatin1(Offset(objects, k - 1));
      Joined(Padded(Offset(objects, k - 1)), END_ENTRY);
      Joined(Entries(objects, k - 1), Entry(Offset(objects, k - 1)));
    }
  }

  lemma TrailerIsLatin1(size: nat, xref: nat)
    ensures IsLatin1(Trailer(size, xref))
  {
    assert IsLatin1(TRAILER) && IsLatin1(ROOT) && IsLatin1(END_OF_FILE);
    Joined("\n", START);
    Joined(END_REF, "\n" + START);
    NumberBetween(START_XREF, xref, END_OF_FILE);
    NumberBetween(ROOT, 1, START_XREF + (Decimal(xref) + END_OF_FILE));
    NumberBetween(TRAILER, size, ROOT + (Decimal(1) + (START_XREF + (Decimal(xref) + END_OF_FILE))));
  }

  /** Encoding the finished report cannot fail, and its text is as long as its bytes. */
  lemma FileIsBytes(lines: seq<string>)
    ensures IsLatin1(File(Objects(PagesOf(lines))))
  {
    var objects := Objects(PagesOf(lines));
    forall i | 0 <= i < |objects| ensures IsLatin1(objects[i]) {
      ObjectIsLatin1(PagesOf(lines), i);
    }
    TextIsBytes(objects);
  }

  lemma TextIsBytes(objects: seq<string>)
    requires forall i :: 0 <= i < |objects| ==> IsLatin1(objects[i])
    ensures IsLatin1(File(objects))
  {
    var entries, trailer := Entries(objects, |objects|), Trailer(|objects| + 1, Offset(objects, |objects|));
    BodyIsLatin1(objects, |objects|);
    EntriesAreLatin1(objects, |objects|);
    TrailerIsLatin1(|objects| + 1, Offset(objects, |objects|));
    Joined(entries, trailer);
    Joined("\n", entries + trailer);
    NumberBetween(XREF, |objects| + 1, "\n" + (entries + trailer));
    Joined(Body(objects, |objects|), Table(objects));
  }
}
