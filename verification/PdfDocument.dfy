/** The report file (section 7.5 of ISO 32000-1). */
module PdfDocument {
  import opened PdfText
  import opened PdfNumbers

  // ----- A page -----

  const BEGIN_TEXT := "BT /F1 8 Tf 40 800 Td 10 TL"
  const END_TEXT := "ET"
  const NEXT_LINE := "T*"
  const SHOW := " Tj T*"

  function Join(parts: seq<string>, separator: string): string {
    if parts == [] then "" else if |parts| == 1 then parts[0] else parts[0] + (separator + Join(parts[1..], separator))
  }

  function Command(line: string): string {
    if Safe(line) == "" then NEXT_LINE else "(" + (Safe(line) + (")" + SHOW))
  }

  function Commands(page: seq<string>): seq<string> {
    seq(|page|, i requires 0 <= i < |page| => Command(page[i])) + [END_TEXT]
  }

  function Stream(page: seq<string>): string {
    Join([BEGIN_TEXT] + Commands(page), " ")
  }

  // ----- Objects -----

  const CATALOG := "<< /Type /Catalog /Pages "
  const PAGES := "<< /Type /Pages /Kids ["
  const COUNT := "] /Count "
  const PAGE := "<< /Type /Page /Parent "
  const REF := " 0 R"
  const MEDIA := REF + (" /MediaBox [0 0 595 842]" + " /Resources << /Font << /F1 ")
  const CONTENTS := " 0 R >> >> /Contents "
  const END_REF := " 0 R >>"
  const LENGTH := "<< /Length "
  const STREAM := " >>\nstream\n"
  const END_STREAM := "\nendstream"
  const END_DICTIONARY := " >>"
  const FONT := "<< /Type /Font /Subtype /Type1" + " /BaseFont /Helvetica >>"

  const PAGES_NUMBER: nat := 2

  function Catalog(): string {
    CATALOG + (Decimal(PAGES_NUMBER) + END_REF)
  }

  function PageNumber(k: nat): nat {
    3 + 2 * k
  }

  function ContentNumber(k: nat): nat {
    4 + 2 * k
  }

  function FontNumber(pages: nat): nat {
    3 + 2 * pages
  }

  function Reference(number: nat): string {
    Decimal(number) + REF
  }

  function PageNumbers(pages: nat): seq<nat> {
    seq(pages, k requires 0 <= k < pages => PageNumber(k))
  }

  function PageTree(kids: seq<nat>): string {
    var references := seq(|kids|, k requires 0 <= k < |kids| => Reference(kids[k]));
    PAGES + (Join(references, " ") + (COUNT + (Decimal(|kids|) + END_DICTIONARY)))
  }

  function PageObject(content: nat, font: nat): string {
    PAGE + (Decimal(PAGES_NUMBER) + (MEDIA + (Decimal(font) + (CONTENTS + (Decimal(content) + END_REF)))))
  }

  function ContentObject(stream: string): string {
    LENGTH + (Decimal(|stream|) + (STREAM + (stream + END_STREAM)))
  }

  datatype Role = CatalogRole | TreeRole | PageRole(page: nat) | ContentRole(page: nat) | FontRole

  /** What the object with number i + 1 is for: catalog, page tree, each page with its content, font. */
  function RoleAt(i: nat, pages: nat): (role: Role)
    requires i < FontNumber(pages)
    ensures role.PageRole? ==> role.page < pages && i == PageNumber(role.page) - 1
    ensures role.ContentRole? ==> role.page < pages && i == ContentNumber(role.page) - 1
  {
    if i == 0 then CatalogRole
    else if i == 1 then TreeRole
    else if i == FontNumber(pages) - 1 then FontRole
    else if i % 2 == 0 then PageRole((i - 2) / 2)
    else ContentRole((i - 3) / 2)
  }

  function TextOf(role: Role, pages: seq<seq<string>>): string
    requires role.ContentRole? ==> role.page < |pages|
  {
    match role
    case CatalogRole => Catalog()
    case TreeRole => PageTree(PageNumbers(|pages|))
    case PageRole(k) => PageObject(ContentNumber(k), FontNumber(|pages|))
    case ContentRole(k) => ContentObject(Stream(pages[k]))
    case FontRole => FONT
  }

  function ObjectAt(pages: seq<seq<string>>, i: nat): string
    requires i < FontNumber(|pages|)
  {
    TextOf(RoleAt(i, |pages|), pages)
  }

  function Objects(pages: seq<seq<string>>): seq<string> {
    seq(FontNumber(|pages|), i requires 0 <= i < FontNumber(|pages|) => ObjectAt(pages, i))
  }

  /** Empty pages with the numbers of their objects, each followed by its stream. */
  method CollectStreams(pages: seq<seq<string>>)
    returns (objects: seq<string>, pageNumbers: seq<nat>, contentNumbers: seq<nat>)
    ensures |objects| == 2 + 2 * |pages| && |pageNumbers| == |contentNumbers| == |pages| && objects[0] == Catalog()
    ensures forall j :: 0 <= j < |pages| ==> pageNumbers[j] == PageNumber(j) && contentNumbers[j] == ContentNumber(j)
    ensures forall j :: 0 <= j < |pages| ==> objects[ContentNumber(j) - 1] == Stream(pages[j])
  {
    objects := [Catalog(), ""];
    pageNumbers, contentNumbers := [], [];
    for k := 0 to |pages|
      invariant |objects| == 2 + 2 * k && objects[0] == Catalog()
      invariant |pageNumbers| == |contentNumbers| == k
      invariant forall j :: 0 <= j < k ==> pageNumbers[j] == PageNumber(j) && contentNumbers[j] == ContentNumber(j)
      invariant forall j :: 0 <= j < k ==> objects[ContentNumber(j) - 1] == Stream(pages[j])
    {
      var pageNumber := |objects| + 1;
      var contentNumber := pageNumber + 1;
      pageNumbers, contentNumbers := pageNumbers + [pageNumber], contentNumbers + [contentNumber];
      objects := objects + [""];
      var commands := PageCommands(pages[k]);
      var stream := Join(commands, " ");
      objects := objects + [stream];
    }
  }

  /** Overwrites the empty pages and the bare streams. */
  method FillPages(start: seq<string>, pageNumbers: seq<nat>, contentNumbers: seq<nat>, font: nat)
    returns (objects: seq<string>)
    requires |pageNumbers| == |contentNumbers| && |start| == 2 + 2 * |pageNumbers|
    requires forall j :: 0 <= j < |pageNumbers| ==>
               pageNumbers[j] == PageNumber(j) && contentNumbers[j] == ContentNumber(j)
    ensures |objects| == |start| && objects[0] == start[0] && objects[1] == start[1]
    ensures forall j :: 0 <= j < |pageNumbers| ==> objects[PageNumber(j) - 1] == PageObject(ContentNumber(j), font)
    ensures forall j :: 0 <= j < |pageNumbers| ==>
              objects[ContentNumber(j) - 1] == ContentObject(start[ContentNumber(j) - 1])
  {
    objects := start;
    for k := 0 to |pageNumbers|
      invariant |objects| == |start| && objects[0] == start[0] && objects[1] == start[1]
      invariant forall j :: 0 <= j < k ==> objects[PageNumber(j) - 1] == PageObject(ContentNumber(j), font)
      invariant forall j :: 0 <= j < k ==> objects[ContentNumber(j) - 1] == ContentObject(start[ContentNumber(j) - 1])
      invariant forall j :: k <= j < |pageNumbers| ==> objects[ContentNumber(j) - 1] == start[ContentNumber(j) - 1]
    {
      var pageNumber, contentNumber := pageNumbers[k], contentNumbers[k];
      var page, content := PageObject(contentNumber, font), ContentObject(objects[contentNumber - 1]);
      objects := objects[pageNumber - 1 := page];
      objects := objects[contentNumber - 1 := content];
    }
  }

  lemma ObjectsAre(objects: seq<string>, pages: seq<seq<string>>)
    requires |objects| == FontNumber(|pages|) && objects[0] == Catalog() && objects[1] == PageTree(PageNumbers(|pages|))
    requires objects[|objects| - 1] == FONT
    requires forall j :: 0 <= j < |pages| ==>
               objects[PageNumber(j) - 1] == PageObject(ContentNumber(j), FontNumber(|pages|))
    requires forall j :: 0 <= j < |pages| ==> objects[ContentNumber(j) - 1] == ContentObject(Stream(pages[j]))
    ensures objects == Objects(pages)
  {
    forall i | 0 <= i < |objects| ensures objects[i] == ObjectAt(pages, i) {
      var role := RoleAt(i, |pages|);
      match role
      case PageRole(k) => assert objects[PageNumber(k) - 1] == TextOf(role, pages);
      case ContentRole(k) => assert objects[ContentNumber(k) - 1] == TextOf(role, pages);
      case _ =>
    }
  }

  /** First the content streams with room for the rest, then the objects that refer to other numbers. */
  method BuildObjects(pages: seq<seq<string>>) returns (objects: seq<string>)
    ensures objects == Objects(pages)
  {
    var pageNumbers, contentNumbers;
    objects, pageNumbers, contentNumbers := CollectStreams(pages);
    var fontNumber := |objects| + 1;
    var tree := PageTree(pageNumbers);
    assert pageNumbers == PageNumbers(|pages|);
    objects := objects[1 := tree];
    objects := FillPages(objects, pageNumbers, contentNumbers, fontNumber);
    var font := FONT;
    objects := objects + [font];
    ObjectsAre(objects, pages);
  }

  method PageCommands(page: seq<string>) returns (commands: seq<string>)
    ensures Join(commands, " ") == Stream(page)
  {
    commands := [BEGIN_TEXT];
    for i := 0 to |page|
      invariant |commands| == i + 1 && commands[0] == BEGIN_TEXT
      invariant forall j :: 0 <= j < i ==> commands[j + 1] == Command(page[j])
    {
      var safe := Guard(Guard(Guard(Latin1(page[i]), '\\'), '('), ')');
      commands := commands + [if safe == "" then NEXT_LINE else "(" + (safe + (")" + SHOW))];
    }
    commands := commands + [END_TEXT];
    assert commands == [BEGIN_TEXT] + Commands(page);
  }

  // ----- The file -----

  const HEADER := "%PDF-1.4\n%\U{E2}\U{E3}\U{CF}\U{D3}\n"
  const OBJECT := " 0 obj\n"
  const END_OBJECT := "\nendobj\n"
  const XREF := "xref\n0 "
  const FREE_ENTRY := "0000000000 65535 f \n"
  const END_ENTRY := " 00000 n \n"
  const TRAILER := "trailer\n<< /Size "
  const ROOT := " /Root "
  const START := "startxref\n"
  const START_XREF := END_REF + ("\n" + START)
  const END_OF_FILE := "\n%%EOF\n"

  function Numbered(number: nat, value: string): string {
    Decimal(number) + (OBJECT + (value + END_OBJECT))
  }

  /** The header and the first k objects. */
  function Body(objects: seq<string>, k: nat): string
    requires k <= |objects|
  {
    if k == 0 then HEADER else Body(objects, k - 1) + Numbered(k, objects[k - 1])
  }

  /** The byte at which object k + 1 starts. */
  function Offset(objects: seq<string>, k: nat): nat
    requires k <= |objects|
  {
    |Body(objects, k)|
  }

  function Entry(offset: nat): string {
    Padded(offset) + END_ENTRY
  }

  function Entries(objects: seq<string>, k: nat): string
    requires k <= |objects|
  {
    if k == 0 then FREE_ENTRY else Entries(objects, k - 1) + Entry(Offset(objects, k - 1))
  }

  function Trailer(size: nat, xref: nat): string {
    TRAILER + (Decimal(size) + (ROOT + (Decimal(1) + (START_XREF + (Decimal(xref) + END_OF_FILE)))))
  }

  function Table(objects: seq<string>): string {
    XREF + (Decimal(|objects| + 1)
            + ("\n" + (Entries(objects, |objects|) + Trailer(|objects| + 1, Offset(objects, |objects|)))))
  }

  function File(objects: seq<string>): string {
    Body(objects, |objects|) + Table(objects)
  }

  function PagesOf(lines: seq<string>): seq<seq<string>> {
    Pieces(Wrapped(lines), LINES_PER_PAGE)
  }

  lemma Regroup(a: string, b: string, c: string, d: string, e: string)
    ensures (a + (b + c) + d) + e == a + (b + (c + (d + e)))
  {
  }

  method WriteObjects(objects: seq<string>) returns (output: string, offsets: seq<nat>)
    ensures output == Body(objects, |objects|)
    ensures |offsets| == |objects| + 1 && forall k :: 1 <= k <= |objects| ==> offsets[k] == Offset(objects, k - 1)
  {
    output := HEADER;
    offsets := [0];
    for number := 1 to |objects| + 1
      invariant output == Body(objects, number - 1)
      invariant |offsets| == number && forall k :: 1 <= k < number ==> offsets[k] == Offset(objects, k - 1)
    {
      offsets := offsets + [|output|];
      output := output + Numbered(number, objects[number - 1]);
    }
  }

  method WriteEntries(objects: seq<string>, offsets: seq<nat>) returns (entries: string)
    requires |offsets| == |objects| + 1 && forall k :: 1 <= k <= |objects| ==> offsets[k] == Offset(objects, k - 1)
    ensures entries == Entries(objects, |objects|)
  {
    entries := FREE_ENTRY;
    for k := 1 to |offsets|
      invariant entries == Entries(objects, k - 1)
    {
      entries := entries + Entry(offsets[k]);
    }
  }

  method WriteFile(objects: seq<string>) returns (output: string)
    ensures output == File(objects)
  {
    var offsets;
    output, offsets := WriteObjects(objects);
    var xref := |output|;
    var entries := WriteEntries(objects, offsets);
    var head, trailer := XREF + (Decimal(|objects| + 1) + "\n"), Trailer(|objects| + 1, xref);
    Regroup(XREF, Decimal(|objects| + 1), "\n", entries, trailer);
    output := output + ((head + entries) + trailer);
  }

  /** The whole report as bytes, one character each. */
  method PdfDocument(lines: seq<string>) returns (output: string)
    ensures output == File(Objects(PagesOf(lines)))
  {
    var wrapped := WrapLines(lines);
    var pages := SplitPages(wrapped);
    var objects := BuildObjects(pages);
    output := WriteFile(objects);
  }
}
