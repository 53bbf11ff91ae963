/** The plain PPM ("P3") writers: the brownbag `write_to_ppm` over a flat pixel vector
    and the AI-assistant variant over a vector of rows. A file is modelled as the
    sequence of its `file.write` calls; its text is their concatenation. */
module Ppm {
  import opened Wrappers
  import opened Colors
  import opened Canvas
  import opened Text

  /** One `file.write` call of the writers, by what it writes. */
  datatype Write =
    | Magic                             // "P3\n"
    | Size(width: nat, height: nat)     // format!("{} {}\n", width, height)
    | MaxValue                          // "255\n"
    | Rgb(c: Color)                     // format!("{} {} {} ", r, g, b)
    | Newline                           // "\n"

  /** The text one write appends to the file. */
  function WriteText(w: Write): string
  {
    match w
    case Magic => "P3\n"
    case Size(width, height) => NatToString(width) + " " + NatToString(height) + "\n"
    case MaxValue => "255\n"
    case Rgb(c) => Triple(c)
    case Newline => "\n"
  }

  /** The text of a sequence of writes. */
  function Concat<W>(writes: seq<W>, text: W -> string): string
  {
    if writes == [] then [] else Concat(writes[..|writes| - 1], text) + text(writes[|writes| - 1])
  }

  lemma {:induction false} ConcatAppend<W>(a: seq<W>, b: seq<W>, text: W -> string)
    ensures Concat(a + b, text) == Concat(a, text) + Concat(b, text)
    decreases |b|
  {
    if b == [] {
      assert a + b == a;
    } else {
      var b' := b[..|b| - 1];
      ConcatAppend(a, b', text);
      assert (a + b)[..|a + b| - 1] == a + b';
    }
  }

  /** The three header writes. */
  function HeaderWrites(width: nat, height: nat): seq<Write>
  {
    [Magic, Size(width, height), MaxValue]
  }

  /** `format!("{} {} {} ", r, g, b)`. */
  function Triple(c: Color): string
  {
    NatToString(c.r) + " " + NatToString(c.g) + " " + NatToString(c.b) + " "
  }

  /** A triple is at most "255 255 255 ", 12 characters, and holds no newline. */
  lemma {:induction false} TripleShape(c: Color)
    ensures |Triple(c)| <= 12 && '\n' !in Triple(c)
  {
    ByteDigits(c.r);
    ByteDigits(c.g);
    ByteDigits(c.b);
  }

  /** The writes for the pixel at flat index idx: its triple, then a newline when idx + 1
      is a multiple of 5. */
  function CellWrites(c: Color, idx: nat): seq<Write>
  {
    if (idx + 1) % 5 == 0 then [Rgb(c), Newline] else [Rgb(c)]
  }

  /** The writes of items 0 .. n - 1, item k written as emit(items[k], k). */
  function Emitted<T, W>(items: seq<T>, n: nat, emit: (T, nat) -> seq<W>): seq<W>
    requires n <= |items|
  {
    if n == 0 then [] else Emitted(items, n - 1, emit) + emit(items[n - 1], n - 1)
  }

  /** The writes for the first n pixels, the k-th at flat index k. */
  function BodyWrites(pixels: seq<Color>, n: nat): seq<Write>
    requires n <= |pixels|
  {
    Emitted(pixels, n, CellWrites)
  }

  /** The file for a width * height image whose first width * height pixels are written. */
  function PpmWrites(width: nat, height: nat, pixels: seq<Color>): seq<Write>
    requires width * height <= |pixels|
  {
    HeaderWrites(width, height) + BodyWrites(pixels, width * height)
  }

  function PpmText(width: nat, height: nat, pixels: seq<Color>): string
    requires width * height <= |pixels|
  {
    Concat(PpmWrites(width, height, pixels), WriteText)
  }

  /** The brownbag `write_to_ppm`: the header, then for y in 0..height, x in 0..width the
      writes of `pixels[y * width + x]`. Indexing past the vector panics, which happens
      exactly when the vector is shorter than width * height. */
  method WriteToPpm(image: FractalImage) returns (r: Result<seq<Write>>)
    ensures r.Panic? <==> |image.pixels| < image.width * image.height
    ensures r.Ok? ==> r.value == PpmWrites(image.width, image.height, image.pixels)
  {
    var width, height, pixels := image.width, image.height, image.pixels;
    var head := HeaderWrites(width, height);
    var body := WriteFlat(pixels, width, height, head, CellWrites);
    if body.None? {
      return Panic("index out of bounds");
    }
    assert PpmWrites(width, height, pixels) == head + BodyWrites(pixels, width * height);
    r := Ok(body.value);
  }

  /** The loops of `write_to_ppm`: for y in 0..height, x in 0..width the writes of item
      y * width + x after `out`, or a panic at the first index past the vector. */
  method WriteFlat<T>(items: seq<T>, width: nat, height: nat, out: seq<Write>, emit: (T, nat) -> seq<Write>)
    returns (r: Option<seq<Write>>)
    ensures r.None? <==> |items| < width * height
    ensures r.Some? ==> width * height <= |items| && r.value == out + Emitted(items, width * height, emit)
  {
    var writes := out;
    for y := 0 to height
      invariant y * width <= |items| && writes == out + Emitted(items, y * width, emit)
    {
      var row := WriteRow(items, y * width, width, out, writes, emit);
      if row.None? {
        MulLeMonotone(y + 1, height, width);
        return None;
      }
      writes := row.value;
      assert y * width + width == (y + 1) * width;
    }
    assert height * width == width * height;
    r := Some(writes);
  }

  /** The inner loop of `write_to_ppm` for one row: the writes of flat indices
      start .. start + width - 1 (`emit` formats one pixel) after those so far, or a
      panic at the first index past the vector. */
  method WriteRow<T>(items: seq<T>, start: nat, width: nat, ghost head: seq<Write>, out: seq<Write>,
                     emit: (T, nat) -> seq<Write>)
    returns (r: Option<seq<Write>>)
    requires start <= |items| && out == head + Emitted(items, start, emit)
    ensures r.None? <==> |items| < start + width
    ensures r.Some? ==> r.value == head + Emitted(items, start + width, emit)
  {
    var writes := out;
    for x := 0 to width
      invariant start + x <= |items| && writes == head + Emitted(items, start + x, emit)
    {
      var idx := start + x;
      if idx >= |items| {
        return None;
      }
      writes := writes + emit(items[idx], idx);
    }
    r := Some(writes);
  }

  /** The image of a vector of rows: cell (x, y) is `rows[y][x]`, black outside. */
  function Grid(rows: seq<seq<Color>>): (nat, nat) -> Color
  {
    (x: nat, y: nat) => if y < |rows| && x < |rows[y]| then rows[y][x] else Black
  }

  /** Every `rows[y][x]` with x < width and y < height exists. */
  predicate Covers<T>(rows: seq<seq<T>>, width: nat, height: nat)
  {
    width == 0 || (height <= |rows| && forall y :: 0 <= y < height ==> width <= |rows[y]|)
  }

  /** The AI-assistant `write_to_ppm`: the same file, each pixel read as
      `fractal_image[y][x]` (panicking when a row or a column is missing); the flat index
      y * width + x still decides the newlines. Its writes are those of the flat writer on
      the row-major layout of the rows. */
  method WriteRowsToPpm(rows: seq<seq<Color>>, width: nat, height: nat) returns (r: Result<seq<Write>>)
    ensures r.Panic? <==> !Covers(rows, width, height)
    ensures r.Ok? ==> |RowMajor(width, height, Grid(rows))| == width * height &&
                      r.value == PpmWrites(width, height, RowMajor(width, height, Grid(rows)))
  {
    ghost var pixels := RowMajor(width, height, Grid(rows));
    RowMajorLength(width, height, Grid(rows));
    var head := HeaderWrites(width, height);
    var body := WriteRows(rows, width, height, Grid(rows), pixels, head, CellWrites);
    if body.None? {
      return Panic("index out of bounds");
    }
    assert PpmWrites(width, height, pixels) == head + BodyWrites(pixels, width * height);
    r := Ok(body.value);
  }

  /** The outer loop of the AI-assistant writer: for y in 0..height the row writes, after
      `out`; the items are the row-major layout of the rows. */
  method WriteRows<T>(rows: seq<seq<T>>, width: nat, height: nat, ghost f: (nat, nat) -> T, ghost items: seq<T>,
                      out: seq<Write>, emit: (T, nat) -> seq<Write>)
    returns (r: Option<seq<Write>>)
    requires items == RowMajor(width, height, f)
    requires forall y: nat, x: nat :: y < |rows| && x < |rows[y]| ==> f(x, y) == rows[y][x]
    ensures |items| == width * height
    ensures r.None? <==> !Covers(rows, width, height)
    ensures r.Some? ==> r.value == out + Emitted(items, width * height, emit)
  {
    RowMajorLength(width, height, f);
    var writes := out;
    var start := 0;
    for y := 0 to height
      invariant start == y * width && start <= |items| && writes == out + Emitted(items, start, emit)
      invariant width > 0 ==> y <= |rows| && forall v :: 0 <= v < y ==> width <= |rows[v]|
    {
      var row := WriteLaidOutRow(rows, width, height, f, items, y, start, out, writes, emit);
      if row.None? {
        return None;
      }
      writes := row.value;
      start := start + width;
    }
    MulCommutes(height, width);
    r := Some(writes);
  }

  lemma {:induction false} MulCommutes(a: nat, b: nat)
    ensures a * b == b * a
  {
  }

  /** Row y of the AI-assistant writer, read from the rows and written as the items of
      flat indices y * width .. y * width + width - 1. */
  method WriteLaidOutRow<T>(rows: seq<seq<T>>, width: nat, height: nat, ghost f: (nat, nat) -> T,
                            ghost items: seq<T>, y: nat, start: nat, ghost head: seq<Write>, out: seq<Write>,
                            emit: (T, nat) -> seq<Write>)
    returns (r: Option<seq<Write>>)
    requires items == RowMajor(width, height, f)
    requires forall y: nat, x: nat :: y < |rows| && x < |rows[y]| ==> f(x, y) == rows[y][x]
    requires y < height && start == y * width && start <= |items| && out == head + Emitted(items, start, emit)
    ensures start + width == (y + 1) * width && start + width <= |items|
    ensures r.None? <==> width > 0 && (|rows| <= y || |rows[y]| < width)
    ensures r.Some? ==> r.value == head + Emitted(items, start + width, emit)
  {
    LayoutRow(width, height, f, y, start);
    r := WriteGridRow(rows, y, width, items, start, head, out, emit);
  }

  /** Row y of the row-major layout is f(0, y) .. f(width - 1, y), from y * width on. */
  lemma {:induction false} LayoutRow<T>(width: nat, height: nat, f: (nat, nat) -> T, y: nat, start: nat)
    requires y < height && start == y * width
    ensures |RowMajor(width, height, f)| == width * height && start + width <= width * height
    ensures start + width == (y + 1) * width
    ensures forall x :: 0 <= x < width ==> RowMajor(width, height, f)[start + x] == f(x, y)
  {
    RowMajorLength(width, height, f);
    MulLeMonotone(y + 1, height, width);
    forall x | 0 <= x < width
      ensures RowMajor(width, height, f)[start + x] == f(x, y)
    {
      RowMajorEntry(width, height, f, x, y);
    }
  }

  /** The inner loop of the AI-assistant writer for row y: `rows[y][x]` for x in
      0..width, which are items start .. start + width - 1 of the row-major layout, or
      a panic when row y or one of its columns is missing. */
  method WriteGridRow<T>(rows: seq<seq<T>>, y: nat, width: nat, ghost items: seq<T>, start: nat,
                         ghost head: seq<Write>, out: seq<Write>, emit: (T, nat) -> seq<Write>)
    returns (r: Option<seq<Write>>)
    requires start + width <= |items| && out == head + Emitted(items, start, emit)
    requires forall x :: 0 <= x < width && y < |rows| && x < |rows[y]| ==> items[start + x] == rows[y][x]
    ensures r.None? <==> width > 0 && (|rows| <= y || |rows[y]| < width)
    ensures r.Some? ==> r.value == head + Emitted(items, start + width, emit)
  {
    var writes := out;
    for x := 0 to width
      invariant writes == head + Emitted(items, start + x, emit)
      invariant x > 0 ==> y < |rows| && x <= |rows[y]|
    {
      if y >= |rows| || x >= |rows[y]| {
        return None;
      }
      writes := writes + emit(rows[y][x], start + x);
    }
    r := Some(writes);
  }

  /** The header as text. */
  function Header(width: nat, height: nat): string
  {
    "P3\n" + (NatToString(width) + " " + NatToString(height) + "\n") + "255\n"
  }

  /** The pixel writes as text. */
  function Body(pixels: seq<Color>, n: nat): string
    requires n <= |pixels|
  {
    Concat(BodyWrites(pixels, n), WriteText)
  }

  lemma {:induction false} ConcatThree(a: Write, b: Write, c: Write)
    ensures Concat([a, b, c], WriteText) == WriteText(a) + WriteText(b) + WriteText(c)
  {
    assert [a][..0] == [];
    assert Concat([a], WriteText) == WriteText(a);
    assert [a, b][..1] == [a];
    assert Concat([a, b], WriteText) == WriteText(a) + WriteText(b);
    assert [a, b, c][..2] == [a, b];
  }

  /** The file's text is the header followed by the body. */
  lemma {:induction false} PpmTextParts(width: nat, height: nat, pixels: seq<Color>)
    requires width * height <= |pixels|
    ensures PpmText(width, height, pixels) == Header(width, height) + Body(pixels, width * height)
  {
    var hw := HeaderWrites(width, height);
    ConcatAppend(hw, BodyWrites(pixels, width * height), WriteText);
    ConcatThree(hw[0], hw[1], hw[2]);
  }

  /** The writes of the pixel at flat index k as text: its triple, then its newline. */
  lemma {:induction false} CellText(c: Color, k: nat)
    ensures Concat(CellWrites(c, k), WriteText) == Triple(c) + NewlineAfter(k)
  {
    assert [Rgb(c)][..0] == [];
    assert Concat([Rgb(c)], WriteText) == Triple(c);
    if (k + 1) % 5 == 0 {
      assert [Rgb(c), Newline][..1] == [Rgb(c)];
    } else {
      assert Triple(c) + NewlineAfter(k) == Triple(c);
    }
  }

  /** The newline written after the pixel at flat index k, if any. */
  function NewlineAfter(k: nat): string
  {
    if (k + 1) % 5 == 0 then "\n" else ""
  }

  /** Text that is empty or ends in whitespace. */
  predicate Blank(s: string)
  {
    s == [] || IsWhitespace(s[|s| - 1])
  }

  /** If every item's writes split into its tokens and end blank, all the writes split
      into all the tokens, in order. */
  lemma {:induction false} SplitEmitted<T, W>(items: seq<T>, n: nat, emit: (T, nat) -> seq<W>, text: W -> string,
                                           tok: (T, nat) -> seq<string>)
    requires n <= |items|
    requires forall i :: 0 <= i < n ==>
               Blank(Concat(emit(items[i], i), text)) && Split(Concat(emit(items[i], i), text)) == tok(items[i], i)
    ensures Blank(Concat(Emitted(items, n, emit), text))
    ensures Split(Concat(Emitted(items, n, emit), text)) == Emitted(items, n, tok)
  {
    if n > 0 {
      SplitEmitted(items, n - 1, emit, text, tok);
      SplitJoin(Emitted(items, n - 1, emit), emit(items[n - 1], n - 1), text);
    }
  }

  /** Writes whose texts are empty or end blank split as their two parts do. */
  lemma {:induction false} SplitJoin<W>(before: seq<W>, last: seq<W>, text: W -> string)
    requires Blank(Concat(before, text)) && Blank(Concat(last, text))
    ensures Blank(Concat(before + last, text))
    ensures Split(Concat(before + last, text)) == Split(Concat(before, text)) + Split(Concat(last, text))
  {
    ConcatAppend(before, last, text);
    SplitAppend(Concat(before, text), Concat(last, text));
    BlankAppend(Concat(before, text), Concat(last, text));
  }

  lemma {:induction false} BlankAppend(a: string, b: string)
    requires Blank(a) && Blank(b)
    ensures Blank(a + b)
  {
    if b == [] {
      assert a + b == a;
    }
  }

  /** Three words, each followed by a blank, then an optional newline: the shape of one
      pixel's text. */
  lemma {:induction false} WordsCell(r: string, g: string, b: string, nl: string)
    requires r != [] && g != [] && b != [] && NoWhitespace(r) && NoWhitespace(g) && NoWhitespace(b)
    requires nl == "\n" || nl == ""
    ensures var s := r + " " + g + " " + b + " " + nl; Blank(s) && Split(s) == [r, g, b]
  {
    var s2 := b + [' '] + nl;
    var s1 := g + [' '] + s2;
    var s0 := r + [' '] + s1;
    assert r + " " + g + " " + b + " " + nl == s0;
    SplitLead(b, ' ', nl);
    SplitLead(g, ' ', s2);
    SplitLead(r, ' ', s1);
    assert Split(nl) == [] by {
      if nl != [] {
        assert Split(nl) == Split(nl[1..]);
      }
    }
  }

  /** The tokens of one pixel: r, g and b in decimal. */
  function TripleTokens(c: Color, k: nat): seq<string>
  {
    [NatToString(c.r), NatToString(c.g), NatToString(c.b)]
  }

  /** The token sequence of the first n pixels. */
  function Tokens(pixels: seq<Color>, n: nat): (t: seq<string>)
    requires n <= |pixels|
  {
    Emitted(pixels, n, TripleTokens)
  }

  lemma {:induction false} TokensLength(pixels: seq<Color>, n: nat)
    requires n <= |pixels|
    ensures |Tokens(pixels, n)| == 3 * n
  {
    if n > 0 {
      TokensLength(pixels, n - 1);
    }
  }

  lemma {:induction false} SplitCell(c: Color, k: nat)
    ensures Blank(Concat(CellWrites(c, k), WriteText)) && Split(Concat(CellWrites(c, k), WriteText)) == TripleTokens(c, k)
  {
    CellText(c, k);
    WordsCell(NatToString(c.r), NatToString(c.g), NatToString(c.b), NewlineAfter(k));
  }

  /** The body splits into the decimal channels of the pixels, in order. */
  lemma {:induction false} SplitBody(pixels: seq<Color>, n: nat)
    requires n <= |pixels|
    ensures Blank(Body(pixels, n)) && Split(Body(pixels, n)) == Tokens(pixels, n)
  {
    forall i | 0 <= i < n
      ensures Blank(Concat(CellWrites(pixels[i], i), WriteText)) && Split(Concat(CellWrites(pixels[i], i), WriteText)) == TripleTokens(pixels[i], i)
    {
      SplitCell(pixels[i], i);
    }
    SplitEmitted(pixels, n, CellWrites, WriteText, TripleTokens);
  }

  /** A token and one whitespace character in front of more text split off as that token. */
  lemma {:induction false} SplitLead(t: string, sep: char, rest: string)
    requires t != [] && NoWhitespace(t) && IsWhitespace(sep)
    ensures Split(t + [sep] + rest) == [t] + Split(rest)
  {
    SplitAppend(t + [sep], rest);
    SplitToken(t, sep);
  }

  /** The header splits into "P3", the width, the height and "255". */
  lemma {:induction false} SplitHeader(w: string, h: string, body: string)
    requires w != [] && h != [] && NoWhitespace(w) && NoWhitespace(h)
    ensures Split("P3\n" + (w + " " + h + "\n") + "255\n" + body) == ["P3", w, h, "255"] + Split(body)
  {
    var s3 := "255" + ['\n'] + body;
    var s2 := h + ['\n'] + s3;
    var s1 := w + [' '] + s2;
    var s0 := "P3" + ['\n'] + s1;
    assert "P3\n" + (w + " " + h + "\n") + "255\n" + body == s0;
    SplitLead("255", '\n', body);
    SplitLead(h, '\n', s3);
    SplitLead(w, ' ', s2);
    SplitLead("P3", '\n', s1);
    Prepend4("P3", w, h, "255", Split(body));
  }

  lemma {:induction false} Prepend4<T>(a: T, b: T, c: T, d: T, rest: seq<T>)
    ensures [a] + ([b] + ([c] + ([d] + rest))) == [a, b, c, d] + rest
  {
  }

  /** A pixel from three u8 tokens. */
  function DecodeColor(r: string, g: string, b: string): Option<Color>
  {
    var (pr, pg, pb) := (ParseUnsigned(r, 256), ParseUnsigned(g, 256), ParseUnsigned(b, 256));
    if pr.Some? && pg.Some? && pb.Some? then Some(Color(pr.value, pg.value, pb.value)) else None
  }

  /** A PPM reader over the whitespace-separated tokens: pixels from triples of u8s. */
  function DecodeTriples(tokens: seq<string>): Option<seq<Color>>
    decreases |tokens|
  {
    if tokens == [] then Some([])
    else if |tokens| < 3 then None
    else
      var n := |tokens|;
      var front := DecodeTriples(tokens[..n - 3]);
      var last := DecodeColor(tokens[n - 3], tokens[n - 2], tokens[n - 1]);
      if front.Some? && last.Some? then Some(front.value + [last.value]) else None
  }

  /** A plain-PPM reader for the files these writers produce: the magic "P3", the width,
      the height, the maximum value 255, then exactly width * height pixel triples. */
  function ReadPpm(text: string): Option<FractalImage>
  {
    var tokens := Split(text);
    if |tokens| < 4 || tokens[0] != "P3" || tokens[3] != "255" then None
    else
      match (ParseDigits(tokens[1]), ParseDigits(tokens[2]), DecodeTriples(tokens[4..]))
      case (Some(w), Some(h), Some(ps)) => if |ps| == w * h then Some(FractalImage(w, h, ps)) else None
      case _ => None
  }

  lemma {:induction false} DecodeTokens(pixels: seq<Color>, n: nat)
    requires n <= |pixels|
    ensures DecodeTriples(Tokens(pixels, n)) == Some(pixels[..n])
  {
    if n > 0 {
      var k := n - 1;
      var c := pixels[k];
      assert pixels[..n] == pixels[..k] + [c];
      var t := Tokens(pixels, n);
      TokensLength(pixels, n);
      DecodeTokens(pixels, k);
      assert t[..|t| - 3] == Tokens(pixels, k);
      DecodePrinted(c);
    }
  }

  lemma {:induction false} DecodePrinted(c: Color)
    ensures DecodeColor(NatToString(c.r), NatToString(c.g), NatToString(c.b)) == Some(c)
  {
    ParsePrinted(c.r, 256);
    ParsePrinted(c.g, 256);
    ParsePrinted(c.b, 256);
  }

  /** The written file reads back as the image: width, height and the first
      width * height pixels, so the body holds exactly width * height triples. */
  lemma {:induction false} ReadWritten(width: nat, height: nat, pixels: seq<Color>)
    requires width * height <= |pixels|
    ensures ReadPpm(PpmText(width, height, pixels)) == Some(FractalImage(width, height, pixels[..width * height]))
  {
    var n := width * height;
    FileTokens(width, height, pixels);
    DecodeTokens(pixels, n);
    ReadFromTokens(PpmText(width, height, pixels), width, height, pixels[..n], Tokens(pixels, n));
  }

  /** The written file splits into the header's four tokens and the pixels' channels. */
  lemma {:induction false} FileTokens(width: nat, height: nat, pixels: seq<Color>)
    requires width * height <= |pixels|
    ensures Split(PpmText(width, height, pixels)) ==
            ["P3", NatToString(width), NatToString(height), "255"] + Tokens(pixels, width * height)
  {
    var n := width * height;
    PpmTextParts(width, height, pixels);
    HeaderTokens(width, height, Body(pixels, n));
    SplitBody(pixels, n);
    SplitParts(PpmText(width, height, pixels), Header(width, height), Body(pixels, n),
               ["P3", NatToString(width), NatToString(height), "255"], Tokens(pixels, n));
  }

  lemma {:induction false} SplitParts(text: string, header: string, body: string, head: seq<string>, rest: seq<string>)
    requires text == header + body && Split(header + body) == head + Split(body) && Split(body) == rest
    ensures Split(text) == head + rest
  {
  }

  /** The header splits off as its four tokens. */
  lemma {:induction false} HeaderTokens(width: nat, height: nat, body: string)
    ensures Split(Header(width, height) + body) == ["P3", NatToString(width), NatToString(height), "255"] + Split(body)
  {
    SplitHeader(NatToString(width), NatToString(height), body);
  }

  /** Text whose tokens are the header of a width * height image and the triples of its
      pixels reads back as that image. */
  lemma {:induction false} ReadFromTokens(text: string, width: nat, height: nat, ps: seq<Color>, rest: seq<string>)
    requires Split(text) == ["P3", NatToString(width), NatToString(height), "255"] + rest
    requires DecodeTriples(rest) == Some(ps) && |ps| == width * height
    ensures ReadPpm(text) == Some(FractalImage(width, height, ps))
  {
    ParseWritten(width);
    ParseWritten(height);
    var tokens := Split(text);
    assert tokens[4..] == rest;
  }

  lemma {:induction false} ParseWritten(n: nat)
    ensures ParseDigits(NatToString(n)) == Some(n)
  {
    DigitsOfNat(n);
  }

  /** The length of the last line of s (the characters after its last '\n'). */
  function Trailing(s: string): nat
  {
    if s == [] then 0 else if s[|s| - 1] == '\n' then 0 else Trailing(s[..|s| - 1]) + 1
  }

  /** The length of the longest line of s, newlines not counted. */
  function Longest(s: string): nat
  {
    if s == [] then 0 else Max(Longest(s[..|s| - 1]), Trailing(s))
  }

  function Max(a: nat, b: nat): nat
  {
    if a < b then b else a
  }

  lemma {:induction false} AppendLine(s: string, t: string)
    requires '\n' !in t
    ensures Trailing(s + t) == Trailing(s) + |t|
    ensures Longest(s + t) == Max(Longest(s), Trailing(s) + |t|)
    decreases |t|
  {
    if t == [] {
      assert s + t == s;
    } else {
      var t' := t[..|t| - 1];
      AppendLine(s, t');
      assert (s + t)[..|s + t| - 1] == s + t';
    }
  }

  lemma {:induction false} NewLine(s: string)
    ensures Trailing(s + "\n") == 0 && Longest(s + "\n") == Longest(s)
  {
    assert (s + "\n")[..|s|] == s;
  }

  /** The text of the item at flat index i: at most 12 characters without a newline,
      followed by a newline exactly when i + 1 is a multiple of 5. */
  ghost predicate LineCell(s: string, i: nat)
  {
    exists t: string, nl: string :: LineCellSplit(s, i, t, nl)
  }

  predicate LineCellSplit(s: string, i: nat, t: string, nl: string)
  {
    s == t + nl && |t| <= 12 && '\n' !in t && nl == NewlineAfter(i)
  }

  /** Pixel lines: if every item's text is at most 12 characters plus the newline after
      every fifth item, the last line holds the items since the last multiple of 5 and no
      line is longer than 60 characters. */
  lemma {:induction false} LinesEmitted<T, W>(items: seq<T>, n: nat, emit: (T, nat) -> seq<W>, text: W -> string)
    requires n <= |items|
    requires forall i :: 0 <= i < n ==> LineCell(Concat(emit(items[i], i), text), i)
    ensures Trailing(Concat(Emitted(items, n, emit), text)) <= 12 * (n % 5)
    ensures Longest(Concat(Emitted(items, n, emit), text)) <= 60
  {
    if n > 0 {
      var k := n - 1;
      LinesEmitted(items, k, emit, text);
      var before, last := Emitted(items, k, emit), emit(items[k], k);
      ConcatAppend(before, last, text);
      var t, nl :| LineCellSplit(Concat(last, text), k, t, nl);
      LinesAfterCell(Concat(before, text), t, k, Concat(before, text) + Concat(last, text));
    }
  }

  /** One more item: at most 12 characters, then a newline after every fifth. */
  lemma {:induction false} LinesAfterCell(before: string, t: string, k: nat, s: string)
    requires Trailing(before) <= 12 * (k % 5) && Longest(before) <= 60
    requires |t| <= 12 && '\n' !in t
    requires s == before + (t + NewlineAfter(k))
    ensures Trailing(s) <= 12 * ((k + 1) % 5) && Longest(s) <= 60
  {
    AppendLine(before, t);
    Mod5Step(k);
    if (k + 1) % 5 == 0 {
      assert s == (before + t) + "\n";
      NewLine(before + t);
    } else {
      assert s == before + t;
    }
  }

  lemma {:induction false} Mod5Step(k: nat)
    ensures k % 5 < 5
    ensures (k + 1) % 5 == 0 ==> k % 5 == 4
    ensures (k + 1) % 5 != 0 ==> (k + 1) % 5 == k % 5 + 1
  {
  }

  /** Every pixel line of the file holds at most five triples: no longer than 60
      characters ("255 255 255 " five times), within the 70-character line limit of
      plain PPM. */
  lemma {:induction false} BodyLines(pixels: seq<Color>, n: nat)
    requires n <= |pixels|
    ensures Trailing(Body(pixels, n)) <= 12 * (n % 5)
    ensures Longest(Body(pixels, n)) <= 60
  {
    forall i | 0 <= i < n
      ensures LineCell(Concat(CellWrites(pixels[i], i), WriteText), i)
    {
      CellText(pixels[i], i);
      TripleShape(pixels[i]);
      assert LineCellSplit(Concat(CellWrites(pixels[i], i), WriteText), i, Triple(pixels[i]), NewlineAfter(i));
    }
    LinesEmitted(pixels, n, CellWrites, WriteText);
  }
}
