/** The text of a report: wrapped lines, pages, and literal strings (section 7.3.4.2 of ISO 32000-1). */
module PdfText {
  import opened Ordering

  const WIDTH := 112
  const LINES_PER_PAGE := 58

  function Flatten<T>(parts: seq<seq<T>>): seq<T> {
    if parts == [] then [] else parts[0] + Flatten(parts[1..])
  }

  lemma {:induction false} FlattenConcat<T>(a: seq<seq<T>>, b: seq<seq<T>>)
    ensures Flatten(a + b) == Flatten(a) + Flatten(b)
  {
    if a == [] {
      assert a + b == b;
    } else {
      FlattenConcat(a[1..], b);
      ConcatTail(a, b);
      Associative(a[0], Flatten(a[1..]), Flatten(b));
    }
  }

  /** Pieces of n elements and a shorter last one; an empty list has one empty piece. */
  function Pieces<T>(items: seq<T>, n: nat): (pieces: seq<seq<T>>)
    requires n > 0
    decreases |items|
  {
    if |items| <= n then [items] else [items[..n]] + Pieces(items[n..], n)
  }

  lemma FirstPiece<T>(items: seq<T>, n: nat)
    requires 0 < n < |items|
    ensures Pieces(items, n)[0] == items[..n] && Pieces(items, n)[1..] == Pieces(items[n..], n)
  {
  }

  lemma {:induction false} PiecesFlatten<T>(items: seq<T>, n: nat)
    requires n > 0
    ensures Flatten(Pieces(items, n)) == items
    decreases |items|
  {
    if |items| > n {
      PiecesFlatten(items[n..], n);
      FirstPiece(items, n);
      assert items == items[..n] + items[n..];
    } else {
      assert [items][1..] == [];
    }
  }

  lemma {:induction false} PieceSizes<T>(items: seq<T>, n: nat)
    requires n > 0
    ensures var pieces := Pieces(items, n);
            && pieces != [] && |pieces[|pieces| - 1]| <= n && (items != [] ==> pieces[|pieces| - 1] != [])
            && forall k :: 0 <= k < |pieces| - 1 ==> |pieces[k]| == n
    decreases |items|
  {
    if |items| > n {
      PieceSizes(items[n..], n);
      FirstPiece(items, n);
      var pieces, more := Pieces(items, n), Pieces(items[n..], n);
      assert pieces[|pieces| - 1] == more[|more| - 1];
      assert forall k :: 0 < k < |pieces| ==> pieces[k] == more[k - 1];
    }
  }

  lemma PiecesAre<T>(items: seq<T>, n: nat)
    requires n > 0
    ensures Flatten(Pieces(items, n)) == items
    ensures var pieces := Pieces(items, n);
            && pieces != [] && |pieces[|pieces| - 1]| <= n && (items != [] ==> pieces[|pieces| - 1] != [])
            && forall k :: 0 <= k < |pieces| - 1 ==> |pieces[k]| == n
  {
    PiecesFlatten(items, n);
    PieceSizes(items, n);
  }

  // ----- Wrapping -----

  function Wrapped(lines: seq<string>): seq<string> {
    if lines == [] then [] else Pieces(lines[0], WIDTH) + Wrapped(lines[1..])
  }

  lemma {:induction false} WrappedConcat(a: seq<string>, b: seq<string>)
    ensures Wrapped(a + b) == Wrapped(a) + Wrapped(b)
  {
    if a == [] {
      assert a + b == b;
    } else {
      WrappedConcat(a[1..], b);
      ConcatTail(a, b);
      Associative(Pieces(a[0], WIDTH), Wrapped(a[1..]), Wrapped(b));
    }
  }

  lemma PiecesAreNarrow(line: string)
    ensures Pieces(line, WIDTH) != [] && forall w :: w in Pieces(line, WIDTH) ==> |w| <= WIDTH
  {
    PiecesAre(line, WIDTH);
  }

  /** No wrapped line is longer than the page is wide. */
  lemma {:induction false} WrappedIsNarrow(lines: seq<string>)
    ensures |lines| <= |Wrapped(lines)| && forall w :: w in Wrapped(lines) ==> |w| <= WIDTH
  {
    if lines != [] {
      WrappedIsNarrow(lines[1..]);
      PiecesAreNarrow(lines[0]);
    }
  }

  /** No character is lost. */
  lemma {:induction false} WrappingKeepsText(lines: seq<string>)
    ensures Flatten(Wrapped(lines)) == Flatten(lines)
  {
    if lines != [] {
      WrappingKeepsText(lines[1..]);
      PiecesAre(lines[0], WIDTH);
      FlattenConcat(Pieces(lines[0], WIDTH), Wrapped(lines[1..]));
    }
  }

  method WrapLines(lines: seq<string>) returns (wrapped: seq<string>)
    ensures wrapped == Wrapped(lines)
  {
    wrapped := [];
    for i := 0 to |lines|
      invariant wrapped == Wrapped(lines[..i])
    {
      var text := lines[i];
      ghost var before := wrapped;
      assert lines[..i + 1] == lines[..i] + [lines[i]];
      WrappedConcat(lines[..i], [lines[i]]);
      assert [lines[i]][1..] == [];
      assert Wrapped([lines[i]]) == Pieces(lines[i], WIDTH);
      while |text| > WIDTH
        invariant before + Pieces(lines[i], WIDTH) == wrapped + Pieces(text, WIDTH)
        decreases |text|
      {
        assert wrapped + ([text[..WIDTH]] + Pieces(text[WIDTH..], WIDTH))
            == (wrapped + [text[..WIDTH]]) + Pieces(text[WIDTH..], WIDTH);
        wrapped := wrapped + [text[..WIDTH]];
        text := text[WIDTH..];
      }
      wrapped := wrapped + [text];
    }
    assert lines[..|lines|] == lines;
  }

  /** The pages of at most 58 lines; a report without lines has one empty page. */
  method SplitPages(wrapped: seq<string>) returns (pages: seq<seq<string>>)
    ensures pages == Pieces(wrapped, LINES_PER_PAGE)
  {
    pages := [];
    var index := 0;
    while index < |wrapped|
      invariant 0 <= index
      invariant index <= |wrapped| ==> (wrapped == [] || index < |wrapped| ==>
                  Pieces(wrapped, LINES_PER_PAGE) == pages + Pieces(wrapped[index..], LINES_PER_PAGE))
      invariant index >= |wrapped| && wrapped != [] ==> Pieces(wrapped, LINES_PER_PAGE) == pages
      invariant wrapped == [] ==> pages == []
      invariant index > 0 ==> pages != []
      decreases |wrapped| - index
    {
      var end := if index + LINES_PER_PAGE < |wrapped| then index + LINES_PER_PAGE else |wrapped|;
      var rest := wrapped[index..];
      assert rest[..end - index] == wrapped[index..end];
      if end < |wrapped| {
        assert rest[LINES_PER_PAGE..] == wrapped[end..];
        assert pages + ([wrapped[index..end]] + Pieces(wrapped[end..], LINES_PER_PAGE))
            == (pages + [wrapped[index..end]]) + Pieces(wrapped[end..], LINES_PER_PAGE);
      } else {
        assert rest == wrapped[index..end];
      }
      pages := pages + [wrapped[index..end]];
      index := index + LINES_PER_PAGE;
    }
    if pages == [] {
      pages := [[]];
    }
  }

  // ----- Literal strings -----

  predicate IsLatin1(text: string) {
    forall i :: 0 <= i < |text| ==> text[i] as int < 256
  }

  /** `encode("latin-1", "replace")`: what has no code of one byte becomes a question mark. */
  function Latin1(text: string): (latin: string)
    ensures |latin| == |text| && IsLatin1(latin)
  {
    seq(|text|, i requires 0 <= i < |text| => if text[i] as int < 256 then text[i] else '?')
  }

  /** `text.replace(c, "\\" + c)` for a single character. */
  function Guard(text: string, c: char): string {
    if text == "" then ""
    else (if text[0] == c then ['\\', c] else [text[0]]) + Guard(text[1..], c)
  }

  function Safe(line: string): string {
    Guard(Guard(Guard(Latin1(line), '\\'), '('), ')')
  }

  predicate IsSpecial(c: char) {
    c == '\\' || c == '(' || c == ')'
  }

  /** Every special character behind a reverse solidus, in one pass. */
  function Escaped(text: string): string {
    if text == "" then ""
    else (if IsSpecial(text[0]) then ['\\', text[0]] else [text[0]]) + Escaped(text[1..])
  }

  lemma {:induction false} GuardConcat(a: string, b: string, c: char)
    ensures Guard(a + b, c) == Guard(a, c) + Guard(b, c)
  {
    if a == "" {
      assert a + b == b;
    } else {
      GuardConcat(a[1..], b, c);
      ConcatTail(a, b);
      Associative(if a[0] == c then ['\\', c] else [a[0]], Guard(a[1..], c), Guard(b, c));
    }
  }

  lemma GuardOne(x: char, c: char)
    ensures Guard([x], c) == if x == c then ['\\', c] else [x]
  {
    assert [x][1..] == "";
  }

  /** Guarding the reverse solidus first makes three passes agree with one. */
  lemma {:induction false} GuardsEscape(text: string)
    ensures Guard(Guard(Guard(text, '\\'), '('), ')') == Escaped(text)
  {
    if text != "" {
      var x, rest := text[0], text[1..];
      GuardsEscape(rest);
      var one := if x == '\\' then "\\\\" else [x];
      GuardConcat(one, Guard(rest, '\\'), '(');
      GuardPair('\\', '(');
      GuardOne(x, '(');
      var two := if x == '\\' then "\\\\" else if x == '(' then "\\(" else [x];
      assert Guard(one, '(') == two;
      GuardConcat(two, Guard(Guard(rest, '\\'), '('), ')');
      GuardPair('\\', ')');
      GuardPair('(', ')');
      GuardOne(x, ')');
    }
  }

  lemma GuardPair(x: char, c: char)
    requires x != c && c != '\\'
    ensures Guard(['\\', x], c) == ['\\', x]
  {
    assert ['\\', x][1..] == [x];
    GuardOne(x, c);
  }

  // ----- Reading a literal string -----

  datatype Parsed<+T> = Fails | Reads(value: T, rest: string)

  function After<T>(first: T, more: Parsed<seq<T>>): Parsed<seq<T>> {
    if more.Reads? then Reads([first] + more.value, more.rest) else Fails
  }

  /** A literal string up to its closing parenthesis. An end-of-line marker inside it is read as one line feed. */
  function ReadLiteral(input: string): (text: Parsed<string>)
    ensures text.Reads? ==> |text.rest| < |input|
    decreases |input|
  {
    if input == "" then Fails
    else if input[0] == ')' then Reads("", input[1..])
    else if input[0] == '(' then Fails
    else if input[0] == '\\' then
      if |input| > 1 && IsSpecial(input[1]) then After(input[1], ReadLiteral(input[2..])) else Fails
    else if input[0] == '\r' then
      After('\n', ReadLiteral(if |input| > 1 && input[1] == '\n' then input[2..] else input[1..]))
    else After(input[0], ReadLiteral(input[1..]))
  }

  /** The text with every end-of-line marker as one line feed. */
  function Unified(text: string): string
    decreases |text|
  {
    if text == "" then ""
    else if text[0] == '\r' then ['\n'] + Unified(if |text| > 1 && text[1] == '\n' then text[2..] else text[1..])
    else [text[0]] + Unified(text[1..])
  }

  lemma ReadsPlain(c: char, tail: string)
    requires !IsSpecial(c) && c != '\r'
    ensures ReadLiteral([c] + tail) == After(c, ReadLiteral(tail))
  {
    assert ([c] + tail)[1..] == tail;
  }

  lemma ReadsGuarded(c: char, tail: string)
    requires IsSpecial(c)
    ensures ReadLiteral(['\\', c] + tail) == After(c, ReadLiteral(tail))
  {
    assert (['\\', c] + tail)[2..] == tail;
  }

  lemma ReadsReturn(tail: string)
    requires tail == "" || tail[0] != '\n'
    ensures ReadLiteral(['\r'] + tail) == After('\n', ReadLiteral(tail))
  {
    assert (['\r'] + tail)[1..] == tail;
  }

  lemma ReadsReturnFeed(tail: string)
    ensures ReadLiteral(['\r', '\n'] + tail) == After('\n', ReadLiteral(tail))
  {
    assert (['\r', '\n'] + tail)[2..] == tail;
  }

  /** Reading what was escaped gives the text back, up to end-of-line markers, whatever follows. */
  lemma {:induction false} ReadsEscaped(text: string, rest: string)
    ensures ReadLiteral(Escaped(text) + (")" + rest)) == Reads(Unified(text), rest)
    decreases |text|
  {
    if text == "" {
      assert Escaped(text) + (")" + rest) == ")" + rest && (")" + rest)[1..] == rest;
    } else if text[0] == '\r' && |text| > 1 && text[1] == '\n' {
      var tail := Escaped(text[2..]) + (")" + rest);
      ReadsEscaped(text[2..], rest);
      EscapedPair(text);
      Associative(['\r', '\n'], Escaped(text[2..]), ")" + rest);
      ReadsReturnFeed(tail);
    } else {
      var tail := Escaped(text[1..]) + (")" + rest);
      ReadsEscaped(text[1..], rest);
      if IsSpecial(text[0]) {
        Associative(['\\', text[0]], Escaped(text[1..]), ")" + rest);
        ReadsGuarded(text[0], tail);
      } else {
        Associative([text[0]], Escaped(text[1..]), ")" + rest);
        FirstEscaped(text[1..]);
        if text[0] == '\r' {
          ReadsReturn(tail);
        } else {
          ReadsPlain(text[0], tail);
        }
      }
    }
  }

  lemma EscapedPair(text: string)
    requires |text| > 1 && text[0] == '\r' && text[1] == '\n'
    ensures Escaped(text) == ['\r', '\n'] + Escaped(text[2..])
  {
    assert text[1..][1..] == text[2..];
    assert Escaped(text[1..]) == ['\n'] + Escaped(text[2..]);
  }

  lemma FirstEscaped(text: string)
    ensures text == "" ==> Escaped(text) == ""
    ensures text != "" ==> Escaped(text) != "" && (Escaped(text)[0] == '\n' <==> text[0] == '\n')
  {
  }

  lemma {:induction false} UnifiedIsClean(text: string)
    ensures '\r' !in Unified(text) && (IsLatin1(text) ==> IsLatin1(Unified(text)))
    decreases |text|
  {
    if text != "" {
      UnifiedIsClean(text[1..]);
      if |text| > 1 {
        UnifiedIsClean(text[2..]);
      }
    }
  }

  /** The text comes back unchanged exactly when it has no carriage return. */
  lemma {:induction false} UnifiedKeeps(text: string)
    ensures Unified(text) == text <==> '\r' !in text
    decreases |text|
  {
    if text != "" {
      UnifiedKeeps(text[1..]);
      assert text == [text[0]] + text[1..];
      if text[0] == '\r' {
        assert Unified(text)[0] == '\n';
      } else {
        assert Unified(text)[1..] == Unified(text[1..]);
      }
    }
  }

  lemma {:induction false} EscapedIsLatin1(text: string)
    requires IsLatin1(text)
    ensures IsLatin1(Escaped(text))
  {
    if text != "" {
      EscapedIsLatin1(text[1..]);
    }
  }

  /** A printed line read back, whatever follows its closing parenthesis. */
  lemma SafeReadsBack(line: string, rest: string)
    ensures ReadLiteral(Safe(line) + (")" + rest)) == Reads(Unified(Latin1(line)), rest)
    ensures Unified(Latin1(line)) == line <==> IsLatin1(line) && '\r' !in line
    ensures IsLatin1(Safe(line)) && (Safe(line) == "" <==> line == "")
  {
    GuardsEscape(Latin1(line));
    ReadsEscaped(Latin1(line), rest);
    EscapedIsLatin1(Latin1(line));
    UnifiedKeeps(Latin1(line));
    FirstEscaped(Latin1(line));
    if IsLatin1(line) {
      assert Latin1(line) == line;
    }
    UnifiedIsClean(Latin1(line));
  }
}
