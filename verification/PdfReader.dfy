/**
 * A reader of report files, independent of the printer: from the end of the file to the cross-reference table, to the
 * trailer, to the objects, to the lines that a page shows. It fails on anything that it does not expect.
 */
module PdfReader {
  import opened Domain
  import opened PdfText
  import opened PdfNumbers
  import opened PdfDocument

  // ----- Fixed texts with numbers between them -----

  predicate GoodPattern(texts: seq<string>) {
    texts != [] && forall i :: 1 <= i < |texts| ==> texts[i] != "" && !IsDigit(texts[i][0])
  }

  function Print(texts: seq<string>, numbers: seq<nat>): string
    requires |texts| == |numbers| + 1
  {
    if numbers == [] then texts[0] else texts[0] + (Decimal(numbers[0]) + Print(texts[1..], numbers[1..]))
  }

  function ReadPattern(input: string, texts: seq<string>): (numbers: Parsed<seq<nat>>)
    requires texts != []
    ensures numbers.Reads? ==> |numbers.value| == |texts| - 1
    decreases |texts|
  {
    var first := Skip(input, texts[0]);
    if first.Fails? then Fails
    else if |texts| == 1 then Reads([], first.rest)
    else
      var number := ReadNumber(first.rest);
      if number.Fails? then Fails else PdfText.After(number.value, ReadPattern(number.rest, texts[1..]))
  }

  lemma PrintStarts(texts: seq<string>, numbers: seq<nat>, rest: string)
    requires |texts| == |numbers| + 1 && texts[0] != ""
    ensures Print(texts, numbers) + rest != "" && (Print(texts, numbers) + rest)[0] == texts[0][0]
  {
  }

  lemma {:induction false} PatternReads(texts: seq<string>, numbers: seq<nat>, rest: string)
    requires GoodPattern(texts) && |texts| == |numbers| + 1
    ensures ReadPattern(Print(texts, numbers) + rest, texts) == Reads(numbers, rest)
    decreases |texts|
  {
    if numbers == [] {
      SkipReads(texts[0], rest);
    } else {
      var more := Print(texts[1..], numbers[1..]) + rest;
      assert Print(texts, numbers) + rest == texts[0] + (Decimal(numbers[0]) + more);
      SkipReads(texts[0], Decimal(numbers[0]) + more);
      PrintStarts(texts[1..], numbers[1..], rest);
      NumberReads(numbers[0], more);
      PatternReads(texts[1..], numbers[1..], rest);
      assert [numbers[0]] + numbers[1..] == numbers;
    }
  }

  // ----- The text of a page -----

  /** How a line looks to a reader. */
  function Seen(line: string): string {
    Unified(Latin1(line))
  }

  function SeenPage(page: seq<string>): seq<string> {
    seq(|page|, i requires 0 <= i < |page| => Seen(page[i]))
  }

  const BLANK := " "
  const OPEN := "("

  function ReadCommands(input: string): Parsed<seq<string>>
    decreases |input|
  {
    var next := Skip(input, BLANK);
    if next.Fails? then Fails
    else if Skip(next.rest, END_TEXT).Reads? then Reads([], Skip(next.rest, END_TEXT).rest)
    else if Skip(next.rest, NEXT_LINE).Reads? then PdfText.After("", ReadCommands(Skip(next.rest, NEXT_LINE).rest))
    else
      var start := Skip(next.rest, OPEN);
      if start.Fails? then Fails
      else
        var text := ReadLiteral(start.rest);
        if text.Fails? then Fails
        else
          var shown := Skip(text.rest, SHOW);
          if shown.Fails? then Fails else PdfText.After(text.value, ReadCommands(shown.rest))
  }

  function ReadStream(stream: string): Option<seq<string>> {
    var start := Skip(stream, BEGIN_TEXT);
    if start.Fails? then None
    else
      var lines := ReadCommands(start.rest);
      if lines.Reads? && lines.rest == "" then Some(lines.value) else None
  }

  lemma SkipOther(input: string, text: string)
    requires input != "" && text != "" && input[0] != text[0]
    ensures Skip(input, text).Fails?
  {
  }

  lemma EmptyLineReads(rest: string)
    ensures ReadCommands(BLANK + (NEXT_LINE + rest)) == PdfText.After("", ReadCommands(rest))
  {
    SkipReads(BLANK, NEXT_LINE + rest);
    SkipReads(NEXT_LINE, rest);
    SkipOther(NEXT_LINE + rest, END_TEXT);
  }

  lemma ShownLineReads(line: string, rest: string)
    ensures ReadCommands(BLANK + (OPEN + (Safe(line) + (")" + (SHOW + rest)))))
         == PdfText.After(Seen(line), ReadCommands(rest))
  {
    var literal := Safe(line) + (")" + (SHOW + rest));
    SkipReads(BLANK, OPEN + literal);
    SkipReads(OPEN, literal);
    SkipOther(OPEN + literal, END_TEXT);
    SkipOther(OPEN + literal, NEXT_LINE);
    SafeReadsBack(line, SHOW + rest);
    SkipReads(SHOW, rest);
  }

  lemma EndReads()
    ensures ReadCommands(BLANK + END_TEXT) == Reads([], "")
  {
    SkipReads(BLANK, END_TEXT);
    assert END_TEXT == END_TEXT + "";
    SkipReads(END_TEXT, "");
  }

  lemma CommandReads(line: string, rest: string)
    ensures ReadCommands(BLANK + (Command(line) + rest)) == PdfText.After(Seen(line), ReadCommands(rest))
  {
    SafeReadsBack(line, rest);
    if Safe(line) == "" {
      EmptyLineReads(rest);
    } else {
      ShownLineReads(line, rest);
      ShownGroups(OPEN, Safe(line), ")", SHOW, rest);
    }
  }

  lemma ShownGroups(a: string, b: string, c: string, d: string, e: string)
    ensures (a + (b + (c + d))) + e == a + (b + (c + (d + e)))
  {
  }

  lemma CommandsSplit(page: seq<string>)
    requires page != []
    ensures Join(Commands(page), BLANK) == Command(page[0]) + (BLANK + Join(Commands(page[1..]), BLANK))
  {
    assert Commands(page)[1..] == Commands(page[1..]) && Commands(page)[0] == Command(page[0]);
  }

  lemma SeenSplit(page: seq<string>)
    requires page != []
    ensures SeenPage(page) == [Seen(page[0])] + SeenPage(page[1..])
  {
  }

  lemma {:induction false} CommandsRead(page: seq<string>)
    ensures ReadCommands(BLANK + Join(Commands(page), BLANK)) == Reads(SeenPage(page), "")
  {
    if page == [] {
      assert Commands(page) == [END_TEXT] && SeenPage(page) == [];
      assert Join([END_TEXT], BLANK) == END_TEXT;
      EndReads();
    } else {
      CommandsRead(page[1..]);
      CommandsSplit(page);
      var rest := BLANK + Join(Commands(page[1..]), BLANK);
      CommandReads(page[0], rest);
      SeenSplit(page);
    }
  }

  /** The stream of a page shows its lines. */
  lemma StreamReads(page: seq<string>)
    ensures ReadStream(Stream(page)) == Some(SeenPage(page))
  {
    CommandsRead(page);
    assert ([BEGIN_TEXT] + Commands(page))[1..] == Commands(page);
    SkipReads(BEGIN_TEXT, BLANK + Join(Commands(page), BLANK));
  }

  // ----- Objects -----

  /** The file, the entries of its cross-reference table with what follows them, and the number of entries. */
  datatype Source = Source(file: string, table: string, size: nat)

  const ENTRY_LENGTH := 20

  /** The offset that entry n gives: ten digits and a fixed ending. */
  function EntryAt(table: string, n: nat): Option<nat> {
    if ENTRY_LENGTH * (n + 1) > |table| then None
    else
      var entry := table[ENTRY_LENGTH * n..ENTRY_LENGTH * (n + 1)];
      if AllDigits(entry[..10]) && entry[10..] == END_ENTRY then Some(Value(entry[..10])) else None
  }

  /** What follows the header of object n at the byte that the table gives. */
  function ObjectIn(s: Source, n: nat): Option<string> {
    if n >= s.size then None
    else
      var offset := EntryAt(s.table, n);
      if offset.None? || offset.value > |s.file| then None
      else
        var head := ReadPattern(s.file[offset.value..], ["", OBJECT]);
        if head.Reads? && head.value[0] == n then Some(head.rest) else None
  }

  function Finished<T>(p: Parsed<T>): Option<T> {
    if p.Reads? && Skip(p.rest, END_OBJECT).Reads? then Some(p.value) else None
  }

  /** A content object: as many bytes as its length says. */
  function ContentIn(s: Source, n: nat): Option<string> {
    var found := ObjectIn(s, n);
    if found.None? then None
    else
      var head := ReadPattern(found.value, [LENGTH, STREAM]);
      if head.Fails? || head.value[0] > |head.rest| then None
      else if Finished(Skip(head.rest[head.value[0]..], END_STREAM)).Some? then Some(head.rest[..head.value[0]])
      else None
  }

  predicate IsFont(s: Source, n: nat) {
    var found := ObjectIn(s, n);
    found.Some? && Finished(Skip(found.value, FONT)).Some?
  }

  /** The lines of a page that belongs to the page tree and has a font. */
  function PageIn(s: Source, tree: nat, n: nat): Option<seq<string>> {
    var found := ObjectIn(s, n);
    if found.None? then None
    else
      var page := Finished(ReadPattern(found.value, [PAGE, MEDIA, CONTENTS, END_REF]));
      if page.None? || page.value[0] != tree || !IsFont(s, page.value[1]) then None
      else
        var content := ContentIn(s, page.value[2]);
        if content.None? then None else ReadStream(content.value)
  }

  function PagesIn(s: Source, tree: nat, kids: seq<nat>): Option<seq<seq<string>>> {
    if kids == [] then Some([])
    else
      var first, rest := PageIn(s, tree, kids[0]), PagesIn(s, tree, kids[1..]);
      if first.Some? && rest.Some? then Some([first.value] + rest.value) else None
  }

  /** References with a blank between them, at least one. */
  function ReadReferences(input: string): Parsed<seq<nat>>
    decreases |input|
  {
    var number := ReadNumber(input);
    if number.Fails? then Fails
    else
      var end := Skip(number.rest, REF);
      if end.Fails? then Fails
      else
        var more := Skip(end.rest, BLANK);
        if more.Fails? then Reads([number.value], end.rest)
        else if |more.rest| >= |input| then Fails
        else PdfText.After(number.value, ReadReferences(more.rest))
  }

  /** The pages that the page tree lists; their number must be the count. */
  function TreeIn(s: Source, n: nat): Option<seq<seq<string>>> {
    var found := ObjectIn(s, n);
    if found.None? || Skip(found.value, PAGES).Fails? then None
    else
      var kids := ReadReferences(Skip(found.value, PAGES).rest);
      if kids.Fails? then None
      else
        var count := Finished(ReadPattern(kids.rest, [COUNT, END_DICTIONARY]));
        if count == Some([|kids.value|]) then PagesIn(s, n, kids.value) else None
  }

  function CatalogIn(s: Source, n: nat): Option<seq<seq<string>>> {
    var found := ObjectIn(s, n);
    if found.None? then None
    else
      var tree := Finished(ReadPattern(found.value, [CATALOG, END_REF]));
      if tree.Some? then TreeIn(s, tree.value[0]) else None
  }

  // ----- The file -----

  predicate EndsWith(text: string, end: string) {
    |end| <= |text| && text[|text| - |end|..] == end
  }

  /** The number between the last `startxref` and the end-of-file marker. */
  function StartXref(file: string): Option<nat> {
    if !EndsWith(file, END_OF_FILE) then None
    else
      var text := file[..|file| - |END_OF_FILE|];
      DigitsBeforeAre(text);
      var n := DigitsBefore(text);
      if n > 0 && EndsWith(text[..|text| - n], START) then Some(Value(text[|text| - n..])) else None
  }

  /** From the trailer, behind the entries of the table, to the root. */
  function ReadFromTrailer(s: Source): Option<seq<seq<string>>> {
    if ENTRY_LENGTH * s.size > |s.table| then None
    else
      var trailer := ReadPattern(s.table[ENTRY_LENGTH * s.size..], [TRAILER, ROOT, START_XREF, END_OF_FILE]);
      if trailer.Reads? && trailer.value[0] == s.size && trailer.rest == "" then CatalogIn(s, trailer.value[1])
      else None
  }

  function ReadFromTable(file: string, start: nat): Option<seq<seq<string>>> {
    if start > |file| then None
    else
      var head := ReadPattern(file[start..], [XREF, "\n"]);
      if head.Fails? then None else ReadFromTrailer(Source(file, head.rest, head.value[0]))
  }

  /** From the end of the file to the table, the trailer, the catalog, the page tree, the pages and their lines. */
  function ReadDocument(file: string): Option<seq<seq<string>>> {
    var start := StartXref(file);
    if start.None? then None else ReadFromTable(file, start.value)
  }
}
