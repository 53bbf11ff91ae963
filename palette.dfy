/** `read_palette`: every directory entry whose path contains ".MAP" is read line by line;
    a line whose first token is a u8 yields one colour from its first three tokens, each
    cut to three characters, parsed as u16 and clamped to 255. The colours are stored
    under the lower-cased file name. */
module Palette {
  import opened Wrappers
  import opened Colors
  import opened Text

  /** One channel: the first three characters of the token parsed as u16, or None when
      that fails (`u16::from_str(..).unwrap()` would panic). */
  function Channel(token: string): (r: Option<nat>)
    ensures r.Some? ==> r.value < 65536
  {
    ParseUnsigned(Take(token, 3), 65536)
  }

  /** `if v > 255 { 255 } else { v }`. */
  function Clamp(v: nat): (b: Byte)
    ensures b <= v && (v <= 255 ==> b == v) && (v > 255 ==> b == 255)
  {
    if v > 255 then 255 else v
  }

  /** The outcome of one line given its whitespace-separated tokens: Ok(None) when it is
      skipped, Ok(Some(c)) for a colour, Panic when an `unwrap` fails. */
  function LineColor(tokens: seq<string>): Result<Option<Color>>
  {
    if tokens == [] || ParseUnsigned(tokens[0], 256).None? then Ok(None)
    else
      var r := Channel(tokens[0]);
      if r.None? then Panic("called `Result::unwrap()` on an `Err` value")
      else if |tokens| < 2 then Panic("called `Option::unwrap()` on a `None` value")
      else
        var g := Channel(tokens[1]);
        if g.None? then Panic("called `Result::unwrap()` on an `Err` value")
        else if |tokens| < 3 then Panic("called `Option::unwrap()` on a `None` value")
        else
          var b := Channel(tokens[2]);
          if b.None? then Panic("called `Result::unwrap()` on an `Err` value")
          else Ok(Some(Color(Clamp(r.value), Clamp(g.value), Clamp(b.value))))
  }

  /** The body of the `for line in .. .lines()` loop: `color_iter.next()` is called once
      for the first token and, when that token is a u8, once each for g and b. */
  method ParseLine(line: string) returns (r: Result<Option<Color>>)
    ensures r == LineColor(Split(line))
  {
    var tokens := Split(line);
    var next := 0;
    if next >= |tokens| {
      return Ok(None);
    }
    var first := tokens[next];
    next := next + 1;
    if ParseUnsigned(first, 256).None? {
      return Ok(None);
    }
    var red := Channel(first);
    if red.None? {
      return Panic("called `Result::unwrap()` on an `Err` value");
    }
    var channels := [red.value];
    while |channels| < 3
      invariant 1 <= |channels| <= 3 && next == |channels|
      invariant forall i :: 0 <= i < |channels| ==> i < |tokens| && Channel(tokens[i]) == Some(channels[i])
    {
      if next >= |tokens| {
        return Panic("called `Option::unwrap()` on a `None` value");
      }
      var v := Channel(tokens[next]);
      if v.None? {
        return Panic("called `Result::unwrap()` on an `Err` value");
      }
      channels := channels + [v.value];
      next := next + 1;
    }
    r := Ok(Some(Color(Clamp(channels[0]), Clamp(channels[1]), Clamp(channels[2]))));
  }

  /** A token that parses as u8 is at most three digits after an optional '+', so its
      first three characters always parse as u16: the `unwrap` on r never panics, and the
      stored value is below 1000. */
  lemma {:induction false} FirstChannelParses(token: string)
    requires ParseUnsigned(token, 256).Some?
    ensures Channel(token).Some? && Channel(token).value < 1000
  {
    var t := Take(token, 3);
    if token[0] == '+' {
      var digits := token[1..];
      assert AllDigits(digits) && digits != [];
      assert t[1..] == Take(digits, 2);
      ShortDigitsBound(t[1..]);
    } else {
      assert AllDigits(t) && t != [];
      ShortDigitsBound(t);
    }
  }

  /** A line is skipped exactly when it has no token or its first token is not a u8. */
  lemma {:induction false} SkipIff(tokens: seq<string>)
    ensures LineColor(tokens) == Ok(None) <==> tokens == [] || ParseUnsigned(tokens[0], 256).None?
  {
  }

  /** A line that is not skipped panics exactly when g or b is missing or its first
      three characters do not parse as u16; otherwise it is a colour whose r is the
      first three characters of the first token. */
  lemma {:induction false} PanicIff(tokens: seq<string>)
    requires tokens != [] && ParseUnsigned(tokens[0], 256).Some?
    ensures LineColor(tokens).Panic? <==> |tokens| < 3 || Channel(tokens[1]).None? || Channel(tokens[2]).None?
    ensures LineColor(tokens).Ok? ==>
              LineColor(tokens).value.Some? && LineColor(tokens).value.value.r == Clamp(Channel(tokens[0]).value)
  {
    FirstChannelParses(tokens[0]);
  }

  /** "0255" passes the u8 check (it is 255) but r is read from "025": 25, not 255. */
  lemma {:induction false} LeadingZeroCutsR()
    ensures ParseUnsigned("0255", 256) == Some(255)
    ensures LineColor(["0255", "7", "300"]) == Ok(Some(Color(25, 7, 255)))
  {
    assert "0255"[..3] == "025";
    assert DigitsValue("025") == 25 by {
      assert "025"[..2] == "02";
      assert "02"[..1] == "0";
      assert "0"[..0] == "";
    }
    assert DigitsValue("0255") == 255 by {
      assert "0255"[..3] == "025";
    }
    assert DigitsValue("7") == 7 by {
      assert "7"[..0] == "";
    }
    assert DigitsValue("300") == 300 by {
      assert "300"[..2] == "30";
      assert "30"[..1] == "3";
      assert "3"[..0] == "";
    }
  }

  /** The colours of a file's lines in line order, or the first panic. */
  function MapColors(lines: seq<string>): Result<seq<Color>>
  {
    if lines == [] then Ok([])
    else
      match MapColors(lines[..|lines| - 1])
      case Panic(reason) => Panic(reason)
      case Ok(colors) =>
        match LineColor(Split(lines[|lines| - 1]))
        case Panic(reason) => Panic(reason)
        case Ok(None) => Ok(colors)
        case Ok(Some(c)) => Ok(colors + [c])
  }

  /** Reading a file in two parts: the colours of the first part, then those of the
      second; a panic in either part is a panic of the whole. */
  lemma {:induction false} MapColorsAppend(a: seq<string>, b: seq<string>)
    ensures MapColors(a + b).Panic? <==> MapColors(a).Panic? || MapColors(b).Panic?
    ensures MapColors(a + b).Ok? ==> MapColors(a + b).value == MapColors(a).value + MapColors(b).value
    decreases |b|
  {
    if b == [] {
      assert a + b == a;
    } else {
      var b' := b[..|b| - 1];
      assert (a + b)[..|a + b| - 1] == a + b';
      MapColorsAppend(a, b');
    }
  }

  /** The first panicking line decides the outcome of the file. */
  lemma {:induction false} MapColorsFail(lines: seq<string>, k: nat)
    requires k <= |lines| && MapColors(lines[..k]).Panic?
    ensures MapColors(lines) == MapColors(lines[..k])
    decreases |lines| - k
  {
    if k < |lines| {
      assert lines[..k + 1][..k] == lines[..k];
      MapColorsFail(lines, k + 1);
    } else {
      assert lines[..k] == lines;
    }
  }

  /** A file never holds more colours than lines. */
  lemma {:induction false} MapColorsBound(lines: seq<string>)
    ensures MapColors(lines).Ok? ==> |MapColors(lines).value| <= |lines|
  {
    if lines != [] {
      MapColorsBound(lines[..|lines| - 1]);
    }
  }

  /** The `for line in read_to_string(p).unwrap().lines()` loop pushing onto `colors`. */
  method ParseMapFile(content: string) returns (r: Result<seq<Color>>)
    ensures r == MapColors(Lines(content))
  {
    var lines := Lines(content);
    var colors := [];
    for k := 0 to |lines|
      invariant MapColors(lines[..k]) == Ok(colors)
    {
      assert lines[..k + 1][..k] == lines[..k];
      var parsed := ParseLine(lines[k]);
      if parsed.Panic? {
        MapColorsFail(lines, k + 1);
        return Panic(parsed.reason);
      }
      if parsed.value.Some? {
        colors := colors + [parsed.value.value];
      }
    }
    assert lines[..|lines|] == lines;
    r := Ok(colors);
  }

  /** One entry of the palette directory: its path, its file name and its contents
      (None when `read_to_string` fails). */
  datatype DirEntry = DirEntry(path: string, fileName: string, content: Option<string>)

  predicate IsMapFile(e: DirEntry)
  {
    Contains(e.path, ".MAP")
  }

  /** The palettes of the first entries, in directory order, or the first panic. */
  function Palettes(entries: seq<DirEntry>): Result<map<string, seq<Color>>>
  {
    if entries == [] then Ok(map[])
    else
      var e := entries[|entries| - 1];
      match Palettes(entries[..|entries| - 1])
      case Panic(reason) => Panic(reason)
      case Ok(res) =>
        if !IsMapFile(e) then Ok(res)
        else if e.content.None? then Panic("called `Result::unwrap()` on an `Err` value")
        else
          match MapColors(Lines(e.content.value))
          case Panic(reason) => Panic(reason)
          case Ok(colors) => Ok(res[ToLower(e.fileName) := colors])
  }

  /** `read_palette` over the directory entries: `.MAP` files only, each inserted under its
      lower-cased name (a later file of the same name replaces an earlier one). */
  method ReadPalette(entries: seq<DirEntry>) returns (r: Result<map<string, seq<Color>>>)
    ensures r == Palettes(entries)
  {
    var res := map[];
    for k := 0 to |entries|
      invariant Palettes(entries[..k]) == Ok(res)
    {
      assert entries[..k + 1][..k] == entries[..k];
      var e := entries[k];
      if Contains(e.path, ".MAP") {
        if e.content.None? {
          PalettesFail(entries, k + 1);
          return Panic("called `Result::unwrap()` on an `Err` value");
        }
        var colors := ParseMapFile(e.content.value);
        if colors.Panic? {
          PalettesFail(entries, k + 1);
          return Panic(colors.reason);
        }
        res := res[ToLower(e.fileName) := colors.value];
      }
    }
    assert entries[..|entries|] == entries;
    r := Ok(res);
  }

  /** A panic on an entry is a panic of the whole directory. */
  lemma {:induction false} PalettesFail(entries: seq<DirEntry>, k: nat)
    requires k <= |entries| && Palettes(entries[..k]).Panic?
    ensures Palettes(entries) == Palettes(entries[..k])
    decreases |entries| - k
  {
    if k < |entries| {
      assert entries[..k + 1][..k] == entries[..k];
      PalettesFail(entries, k + 1);
    } else {
      assert entries[..k] == entries;
    }
  }

  /** The keys are the lower-cased names of the `.MAP` entries, and nothing else. */
  lemma {:induction false} PalettesKeys(entries: seq<DirEntry>)
    ensures Palettes(entries).Ok? ==>
              Palettes(entries).value.Keys == set e | e in entries && IsMapFile(e) :: ToLower(e.fileName)
  {
    if entries != [] {
      var n := |entries| - 1;
      PalettesKeys(entries[..n]);
      assert entries == entries[..n] + [entries[n]];
    }
  }

  /** The table stored under a name is the colours of the last `.MAP` entry with that
      lower-cased name. */
  lemma {:induction false} PalettesLast(entries: seq<DirEntry>, k: nat)
    requires k < |entries| && IsMapFile(entries[k]) && Palettes(entries).Ok?
    requires forall j :: k < j < |entries| && IsMapFile(entries[j]) ==>
               ToLower(entries[j].fileName) != ToLower(entries[k].fileName)
    ensures entries[k].content.Some? && MapColors(Lines(entries[k].content.value)).Ok?
    ensures ToLower(entries[k].fileName) in Palettes(entries).value
    ensures Palettes(entries).value[ToLower(entries[k].fileName)] == MapColors(Lines(entries[k].content.value)).value
    decreases |entries|
  {
    var n := |entries| - 1;
    assert entries[..n + 1] == entries;
    if k < n {
      assert Palettes(entries[..n]).Ok?;
      assert entries[..n][k] == entries[k];
      PalettesLast(entries[..n], k);
    }
  }

  /** "WILD.MAP" is stored as "wild.map", the name the renderers look up. */
  lemma {:induction false} WildKey()
    ensures ToLower("WILD.MAP") == "wild.map"
  {
  }
}
