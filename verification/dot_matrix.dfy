/** `DotMatrix`: reads the capital letters a puzzle prints as blocks of
    dots, six rows high and five columns wide. */
module DotMatrices {
  import opened Wrappers

  /** `CHAR_WIDTH`: columns per letter, the last of them a blank spacer. */
  const CharWidth: nat := 5

  /** A letter table: lower-case keys with the rows of their glyphs. */
  type Table = seq<(char, seq<string>)>

  /** The glyphs of `DICTIONARY`, one per letter. */
  const GlyphA: seq<string> := [" XX  ", "X  X ", "X  X ", "XXXX ", "X  X ", "X  X "]
  const GlyphB: seq<string> := ["XXX  ", "X  X ", "XXX  ", "X  X ", "X  X ", "XXX  "]
  const GlyphC: seq<string> := [" XX  ", "X  X ", "X    ", "X    ", "X  X ", " XX  "]
  const GlyphE: seq<string> := ["XXXX ", "X    ", "XXX  ", "X    ", "X    ", "XXXX "]
  const GlyphF: seq<string> := ["XXXX ", "X    ", "XXX  ", "X    ", "X    ", "X    "]
  const GlyphG: seq<string> := [" XX  ", "X  X ", "X    ", "X XX ", "X  X ", " XXX "]
  const GlyphH: seq<string> := ["X  X ", "X  X ", "XXXX ", "X  X ", "X  X ", "X  X "]
  const GlyphJ: seq<string> := ["  XX ", "   X ", "   X ", "   X ", "X  X ", " XX  "]
  const GlyphK: seq<string> := ["X  X ", "X X  ", "XX   ", "X X  ", "X X  ", "X  X "]
  const GlyphL: seq<string> := ["X    ", "X    ", "X    ", "X    ", "X    ", "XXXX "]
  const GlyphO: seq<string> := [" XX  ", "X  X ", "X  X ", "X  X ", "X  X ", " XX  "]
  const GlyphP: seq<string> := ["XXX  ", "X  X ", "X  X ", "XXX  ", "X    ", "X    "]
  const GlyphR: seq<string> := ["XXX  ", "X  X ", "X  X ", "XXX  ", "X X  ", "X  X "]
  const GlyphS: seq<string> := [" XXX ", "X    ", "X    ", " XX  ", "   X ", "XXX  "]
  const GlyphU: seq<string> := ["X  X ", "X  X ", "X  X ", "X  X ", "X  X ", " XX  "]
  const GlyphY: seq<string> := ["X   X", "X   X", " X X ", "  X  ", "  X  ", "  X  "]
  const GlyphZ: seq<string> := ["XXXX ", "   X ", "  X  ", " X   ", "X    ", "XXXX "]

  /** `DICTIONARY`, in its own order. */
  const Dictionary: Table := [
      ('a', GlyphA),
      ('b', GlyphB),
      ('c', GlyphC),
      ('e', GlyphE),
      ('f', GlyphF),
      ('g', GlyphG),
      ('h', GlyphH),
      ('j', GlyphJ),
      ('k', GlyphK),
      ('l', GlyphL),
      ('o', GlyphO),
      ('p', GlyphP),
      ('r', GlyphR),
      ('s', GlyphS),
      ('u', GlyphU),
      ('y', GlyphY),
      ('z', GlyphZ)
    ]

  /** Six rows of five cells, each `'X'` or `' '`. */
  ghost predicate SixByFive(g: seq<string>)
  {
    |g| == 6 && forall r :: 0 <= r < 6 ==> (|g[r]| == CharWidth &&
      forall c :: 0 <= c < CharWidth ==> g[r][c] == 'X' || g[r][c] == ' ')
  }

  /** Every entry is a glyph. */
  ghost predicate Shaped(tab: Table)
  {
    forall k :: 0 <= k < |tab| ==> SixByFive(tab[k].1)
  }

  /** No glyph is drawn twice, so a lookup has one answer. */
  ghost predicate Distinct(tab: Table)
  {
    forall k, m :: 0 <= k < m < |tab| ==> tab[k].1 != tab[m].1
  }

  /** The table as the decoder relies on it: seventeen glyphs of six rows of
      five `'X'`/`' '` cells, with distinct keys and distinct glyphs. */
  lemma TableShape()
    ensures |Dictionary| == 17 && Shaped(Dictionary) && Distinct(Dictionary)
    ensures forall k, m :: 0 <= k < m < |Dictionary| ==> Dictionary[k].0 != Dictionary[m].0
  {
    DictionaryShaped();
    DictionaryDistinct();
  }

  lemma DictionaryShaped()
    ensures Shaped(Dictionary)
  {
  }

  lemma DictionaryDistinct()
    ensures Distinct(Dictionary)
  {
  }

  /** A key's letter, upper-cased. */
  function Upcase(c: char): char
  {
    if 'a' <= c <= 'z' then (c as int - 32) as char else c
  }

  /** The letter `to_s` prints for entry `k`. */
  function Letter(tab: Table, k: nat): char
    requires k < |tab|
  {
    Upcase(tab[k].0)
  }

  // ---------------------------------------------------------------------
  // Looking a block up

  /** The dictionary lookup of a block, from entry `from` on: the first
      entry whose glyph is the block. */
  function FindFrom(tab: Table, block: seq<string>, from: nat): (r: Option<nat>)
    requires from <= |tab|
    ensures r.Some? ==> (from <= r.value < |tab| && tab[r.value].1 == block &&
      forall k :: from <= k < r.value ==> tab[k].1 != block)
    ensures r.None? ==> forall k :: from <= k < |tab| ==> tab[k].1 != block
    decreases |tab| - from
  {
    if from == |tab| then None
    else if tab[from].1 == block then Some(from)
    else FindFrom(tab, block, from + 1)
  }

  /** The letter of a block, or `None` when no glyph is drawn that way (where
      `find` gives `nil` and `[0]` on it raises). */
  function Lookup(tab: Table, block: seq<string>): (r: Option<char>)
    ensures r.None? <==> forall k :: 0 <= k < |tab| ==> tab[k].1 != block
    ensures r.Some? ==> exists k :: 0 <= k < |tab| && tab[k].1 == block && r.value == Letter(tab, k)
  {
    match FindFrom(tab, block, 0)
    case None => None
    case Some(k) => Some(Letter(tab, k))
  }

  /** With distinct glyphs, each glyph reads as its own letter. */
  lemma LookupGlyph(tab: Table, k: nat)
    requires Distinct(tab) && k < |tab|
    ensures Lookup(tab, tab[k].1) == Some(Letter(tab, k))
  {
    var m := FindFrom(tab, tab[k].1, 0);
    assert m.Some?;
  }

  /** A character `to_s` can print. */
  ghost predicate IsLetter(tab: Table, c: char)
  {
    exists k :: 0 <= k < |tab| && c == Letter(tab, k)
  }

  // ---------------------------------------------------------------------
  // Cropping to the printed columns

  /** The index of the first non-space character of a row, if any. */
  function FirstDot(row: seq<char>): (r: Option<nat>)
    ensures r.Some? ==> r.value < |row| && row[r.value] != ' ' && forall j :: 0 <= j < r.value ==> row[j] == ' '
    ensures r.None? ==> forall j :: 0 <= j < |row| ==> row[j] == ' '
  {
    if |row| == 0 then None
    else if row[0] != ' ' then Some(0)
    else match FirstDot(row[1..])
      case None => None
      case Some(j) => Some(j + 1)
  }

  /** The index of the last non-space character of a row, if any. */
  function LastDot(row: seq<char>): (r: Option<nat>)
    ensures r.Some? ==> r.value < |row| && row[r.value] != ' ' && forall j :: r.value < j < |row| ==> row[j] == ' '
    ensures r.None? ==> forall j :: 0 <= j < |row| ==> row[j] == ' '
  {
    if |row| == 0 then None
    else if row[|row| - 1] != ' ' then Some(|row| - 1)
    else LastDot(row[..|row| - 1])
  }

  /** `first_position`: the least first-dot column over all rows. `None`
      stands for the cases where Ruby has no number: no rows (the least of
      nothing is `nil`), or a row without a dot (whose missing index makes
      the comparison raise, or gives `nil` when every row is blank). */
  function FirstPosition(input: seq<seq<char>>): (r: Option<nat>)
    ensures r.Some? <==> |input| > 0 && forall i :: 0 <= i < |input| ==> FirstDot(input[i]).Some?
    ensures r.Some? ==> ((forall i :: 0 <= i < |input| ==> r.value <= FirstDot(input[i]).value) &&
      exists i :: 0 <= i < |input| && FirstDot(input[i]).value == r.value)
  {
    if |input| == 0 then None
    else
      var f := FirstDot(input[0]);
      if f.None? then None
      else if |input| == 1 then f
      else match FirstPosition(input[1..])
        case None => None
        case Some(m) =>
          assert forall i :: 1 <= i < |input| ==> input[1..][i - 1] == input[i];
          Some(if f.value < m then f.value else m)
  }

  /** The greatest last-dot column over all rows (`last_position` is one
      more); `None` in the same cases as `FirstPosition`. */
  function LastDotColumn(input: seq<seq<char>>): (r: Option<nat>)
    ensures r.Some? <==> |input| > 0 && forall i :: 0 <= i < |input| ==> LastDot(input[i]).Some?
    ensures r.Some? ==> ((forall i :: 0 <= i < |input| ==> LastDot(input[i]).value <= r.value) &&
      exists i :: 0 <= i < |input| && LastDot(input[i]).value == r.value)
  {
    if |input| == 0 then None
    else
      var l := LastDot(input[0]);
      if l.None? then None
      else if |input| == 1 then l
      else match LastDotColumn(input[1..])
        case None => None
        case Some(m) =>
          assert forall i :: 1 <= i < |input| ==> input[1..][i - 1] == input[i];
          Some(if l.value > m then l.value else m)
  }

  function Min(a: int, b: int): int
  {
    if a < b then a else b
  }

  /** Where the crop of row `i` ends: `row[first..last]` is inclusive of
      `last_position`, one past the last dot column, as far as the row goes. */
  function CropEnd(row: seq<char>, lastDot: nat): nat
  {
    Min(lastDot + 2, |row|)
  }

  /** A row has a first dot exactly when it has a last one, so both
      positions exist together. */
  lemma BothPositions(input: seq<seq<char>>)
    ensures FirstPosition(input).Some? <==> LastDotColumn(input).Some?
  {
    forall i | 0 <= i < |input|
      ensures FirstDot(input[i]).Some? <==> LastDot(input[i]).Some?
    {
    }
  }

  /** `printable_content`: every row cut to the columns from
      `first_position` to `last_position`; `None` where Ruby raises. */
  function PrintableContent(input: seq<seq<char>>): (r: Option<seq<seq<char>>>)
    ensures r.Some? <==> |input| > 0 && forall i :: 0 <= i < |input| ==> FirstDot(input[i]).Some?
    ensures r.Some? ==> |r.value| == |input|
  {
    match FirstPosition(input)
    case None => None
    case Some(first) =>
      BothPositions(input);
      var lastDot := LastDotColumn(input).value;
      CropBounds(input, first, lastDot);
      Some(seq(|input|, i requires 0 <= i < |input| => input[i][first..CropEnd(input[i], lastDot)]))
  }

  /** Each crop starts within its row and ends after its start. */
  lemma CropBounds(input: seq<seq<char>>, first: nat, lastDot: nat)
    requires FirstPosition(input) == Some(first) && LastDotColumn(input) == Some(lastDot)
    ensures forall i :: 0 <= i < |input| ==> first <= CropEnd(input[i], lastDot) <= |input[i]|
  {
    forall i | 0 <= i < |input|
      ensures FirstDot(input[i]).value <= LastDot(input[i]).value
    {
    }
  }

  /** Cropping drops only blank columns: every cell left of the crop or
      right of it is a space, and on the left it stops at a dot. */
  lemma CropDropsOnlySpaces(input: seq<seq<char>>)
    requires PrintableContent(input).Some?
    ensures var first := FirstPosition(input).value;
      var lastDot := LastDotColumn(input).value;
      (forall i, j :: 0 <= i < |input| && 0 <= j < |input[i]| && (j < first || j > lastDot) ==> input[i][j] == ' ') &&
      (exists i :: 0 <= i < |input| && first < |input[i]| && input[i][first] != ' ')
  {
    BothPositions(input);
    var first := FirstPosition(input).value;
    var lastDot := LastDotColumn(input).value;
    forall i, j | 0 <= i < |input| && 0 <= j < |input[i]| && (j < first || j > lastDot)
      ensures input[i][j] == ' '
    {
      assert first <= FirstDot(input[i]).value && LastDot(input[i]).value <= lastDot;
    }
    var i :| 0 <= i < |input| && FirstDot(input[i]).value == first;
    assert input[i][first] != ' ';
  }

  /** `max_chars`: how many whole letters the first cropped row holds. */
  function MaxChars(content: seq<seq<char>>): (n: nat)
    requires |content| > 0
    ensures CharWidth * n <= |content[0]| < CharWidth * (n + 1)
  {
    |content[0]| / CharWidth
  }

  /** Every row reaches the start of block `k`, so Ruby's `row[a...b]` gives
      an array rather than `nil`. */
  predicate Reaches(content: seq<seq<char>>, k: nat)
  {
    forall i :: 0 <= i < |content| ==> CharWidth * k <= |content[i]|
  }

  /** The `char_map` of block `k`: columns `[5k, 5k+5)` of every row (fewer
      where a row ends sooner); `None` where a row ends before the block. */
  function Block(content: seq<seq<char>>, k: nat): (r: Option<seq<string>>)
    ensures r.Some? <==> Reaches(content, k)
    ensures r.Some? ==> (|r.value| == |content| && forall i :: 0 <= i < |content| ==>
      r.value[i] == content[i][CharWidth * k..Min(CharWidth * k + CharWidth, |content[i]|)])
  {
    if Reaches(content, k) then
      Some(seq(|content|, i requires 0 <= i < |content| => content[i][CharWidth * k..Min(CharWidth * k + CharWidth, |content[i]|)]))
    else None
  }

  /** The defaults `on = "X"`, `off = " "` need no translation. */
  predicate Default(on: string, off: string)
  {
    on == "X" && off == " "
  }

  /** A cell of `new_map`: `cell == @on ? "X" : " "`. */
  function Translate(cell: char, on: string): char
  {
    if [cell] == on then 'X' else ' '
  }

  /** `new_map`: every cell translated to `'X'` or `' '`; unchanged under
      the defaults. */
  function Normalise(block: seq<string>, on: string, off: string): (r: seq<string>)
    ensures |r| == |block| && forall i :: 0 <= i < |block| ==> |r[i]| == |block[i]|
    ensures Default(on, off) ==> r == block
    ensures !Default(on, off) ==> forall i, j :: 0 <= i < |block| && 0 <= j < |block[i]| ==>
      (r[i][j] == 'X' <==> [block[i][j]] == on) && (r[i][j] == ' ' <==> [block[i][j]] != on)
  {
    if Default(on, off) then block
    else seq(|block|, i requires 0 <= i < |block| => seq(|block[i]|, j requires 0 <= j < |block[i]| => Translate(block[i][j], on)))
  }

  /** The letter block `k` reads as, once translated; `None` when it is
      not in the table or a row does not reach it. */
  function BlockLetter(tab: Table, content: seq<seq<char>>, on: string, off: string, k: nat): (r: Option<char>)
    ensures r.Some? ==> IsLetter(tab, r.value)
  {
    match Block(content, k)
    case None => None
    case Some(b) => Lookup(tab, Normalise(b, on, off))
  }

  /** The failure `to_s` reports for a block not in the table. */
  const Missing := "Missing character in dictionary"

  /** The failure for an input with no rows or a row without a dot. */
  const NoDots := "no printed dots"

  /** `r` with `out` put in front of its text. */
  function Prepend(out: string, r: Result<string>): Result<string>
  {
    match r
    case Ok(s) => Ok(out + s)
    case Err(e) => Err(e)
  }

  /** The letters of blocks `k` to `n - 1`; an error at the first block that
      does not read as a letter. */
  function DecodeFrom(tab: Table, content: seq<seq<char>>, on: string, off: string, k: nat, n: nat): (r: Result<string>)
    requires k <= n
    ensures r.Ok? ==> (|r.value| == n - k && forall t :: 0 <= t < |r.value| ==> IsLetter(tab, r.value[t]))
    ensures r.Ok? <==> forall m :: k <= m < n ==> BlockLetter(tab, content, on, off, m).Some?
    ensures r.Err? ==> r.error == Missing
    decreases n - k
  {
    if k == n then Ok("")
    else match BlockLetter(tab, content, on, off, k)
      case None => Err(Missing)
      case Some(c) => Prepend([c], DecodeFrom(tab, content, on, off, k + 1, n))
  }

  /** What `DotMatrix.decode` and `to_s` compute: the letters of the cropped
      input, block by block. */
  function Decoded(input: seq<seq<char>>, on: string, off: string): Result<string>
  {
    match PrintableContent(input)
    case None => Err(NoDots)
    case Some(content) => DecodeFrom(Dictionary, content, on, off, 0, MaxChars(content))
  }

  class DotMatrix {
    /** `@input`: rows of one-character cells. */
    const input: seq<seq<char>>
    /** `@on`. */
    const on: string
    /** `@off`. */
    const off: string

    /** `DotMatrix.new(input, on = "X", off = " ")`. */
    constructor (input: seq<seq<char>>, on: string, off: string)
      ensures this.input == input && this.on == on && this.off == off
    {
      this.input := input;
      this.on := on;
      this.off := off;
    }

    /** `to_s`: block by block, the letter of each; the first block not in
        the table ends the decoding with an error. */
    method ToS() returns (r: Result<string>)
      ensures r == Decoded(input, on, off)
    {
      var content := PrintableContent(input);
      if content.None? {
        return Err(NoDots);
      }
      var rows := content.value;
      var n := MaxChars(rows);
      assert Decoded(input, on, off) == DecodeFrom(Dictionary, rows, on, off, 0, n);
      var out: string := "";
      var k := 0;
      PrependNothing(DecodeFrom(Dictionary, rows, on, off, 0, n));
      while k < n
        invariant k <= n
        invariant Prepend(out, DecodeFrom(Dictionary, rows, on, off, k, n)) == DecodeFrom(Dictionary, rows, on, off, 0, n)
        decreases n - k
      {
        var c := ReadBlock(rows, k);
        if c.None? {
          assert DecodeFrom(Dictionary, rows, on, off, k, n) == Err(Missing);
          return Err(Missing);
        }
        Shift(out, c.value, DecodeFrom(Dictionary, rows, on, off, k + 1, n));
        out := out + [c.value];
        k := k + 1;
      }
      assert out + "" == out;
      r := Ok(out);
    }

    /** One pass of the `map` in `to_s`: the block's `char_map`, translated
        unless the defaults are in use, looked up in the table. */
    method ReadBlock(rows: seq<seq<char>>, k: nat) returns (c: Option<char>)
      ensures c == BlockLetter(Dictionary, rows, on, off, k)
    {
      var block := Block(rows, k);
      if block.None? {
        return None;
      }
      var charMap := block.value;
      if !Default(on, off) {
        charMap := NewMap(charMap);
      }
      c := Lookup(Dictionary, charMap);
    }

    /** The nested `each` loops that build `new_map` with `push`. */
    method NewMap(charMap: seq<string>) returns (newMap: seq<string>)
      requires !Default(on, off)
      ensures newMap == Normalise(charMap, on, off)
    {
      newMap := [];
      var i := 0;
      while i < |charMap|
        invariant i <= |charMap| && |newMap| == i
        invariant forall t :: 0 <= t < i ==> newMap[t] == Normalise(charMap, on, off)[t]
      {
        var rowChars: string := [];
        var j := 0;
        while j < |charMap[i]|
          invariant j <= |charMap[i]| && |rowChars| == j
          invariant forall t :: 0 <= t < j ==> rowChars[t] == Translate(charMap[i][t], on)
        {
          rowChars := rowChars + [Translate(charMap[i][j], on)];
          j := j + 1;
        }
        newMap := newMap + [rowChars];
        i := i + 1;
      }
    }
  }

  lemma PrependNothing(r: Result<string>)
    ensures Prepend("", r) == r
  {
    if r.Ok? {
      assert "" + r.value == r.value;
    }
  }

  /** Appending a letter to the decoded prefix. */
  lemma Shift(out: string, c: char, rest: Result<string>)
    ensures Prepend(out, Prepend([c], rest)) == Prepend(out + [c], rest)
  {
    if rest.Ok? {
      assert out + ([c] + rest.value) == out + [c] + rest.value;
    }
  }

  /** `DotMatrix.decode`: a new decoder's `to_s`. */
  method Decode(input: seq<seq<char>>, on: string, off: string) returns (r: Result<string>)
    ensures r == Decoded(input, on, off)
  {
    var d := new DotMatrix(input, on, off);
    r := d.ToS();
  }

  // ---------------------------------------------------------------------
  // Printing letters and reading them back

  /** Cell `(r, t)` of the glyph of entry `k` (a space outside it). */
  function Cell(tab: Table, k: nat, r: nat, t: nat): char
    requires k < |tab|
  {
    if r < |tab[k].1| && t < |tab[k].1[r]| then tab[k].1[r][t] else ' '
  }

  /** A glyph's cell drawn with the given characters. */
  function Paint(x: char, on: char, off: char): char
  {
    if x == 'X' then on else off
  }

  /** Entries of the table. */
  ghost predicate Entries(tab: Table, ks: seq<nat>)
  {
    forall t :: 0 <= t < |ks| ==> ks[t] < |tab|
  }

  /** The printout of the entries `ks` side by side, drawn with `on` and
      `off`: cell `(r, c)` is cell `(r, c % 5)` of glyph `ks[c / 5]`. */
  function Render(tab: Table, ks: seq<nat>, on: char, off: char): (rows: seq<seq<char>>)
    requires Entries(tab, ks)
    ensures |rows| == 6 && forall r :: 0 <= r < 6 ==> |rows[r]| == CharWidth * |ks|
  {
    seq(6, r requires 0 <= r < 6 => seq(CharWidth * |ks|, c requires 0 <= c < CharWidth * |ks| =>
      Paint(Cell(tab, ks[c / CharWidth], r, c % CharWidth), on, off)))
  }

  /** Column `t` of letter `k` in row `r` of a printout is that glyph's cell. */
  lemma RenderCell(tab: Table, ks: seq<nat>, on: char, off: char, r: nat, k: nat, t: nat)
    requires Entries(tab, ks) && r < 6 && k < |ks| && t < CharWidth
    ensures Render(tab, ks, on, off)[r][CharWidth * k + t] == Paint(Cell(tab, ks[k], r, t), on, off)
  {
    assert (CharWidth * k + t) / CharWidth == k && (CharWidth * k + t) % CharWidth == t;
  }

  /** The letters of the entries `ks`. */
  function Letters(tab: Table, ks: seq<nat>): (s: string)
    requires Entries(tab, ks)
    ensures |s| == |ks|
  {
    seq(|ks|, t requires 0 <= t < |ks| => Letter(tab, ks[t]))
  }

  /** Glyph `k` has a dot in its first column. */
  ghost predicate LeftEdge(tab: Table, k: nat)
    requires k < |tab|
  {
    exists r :: 0 <= r < 6 && Cell(tab, k, r, 0) == 'X'
  }

  /** Glyph `k` has a dot in its fourth or fifth column. */
  ghost predicate RightEdge(tab: Table, k: nat)
    requires k < |tab|
  {
    exists r :: 0 <= r < 6 && (Cell(tab, k, r, 3) == 'X' || Cell(tab, k, r, 4) == 'X')
  }

  /** Row `r` of glyph `k` has a dot. */
  ghost predicate RowHasDot(tab: Table, k: nat, r: nat)
    requires k < |tab|
  {
    exists c :: 0 <= c < CharWidth && Cell(tab, k, r, c) == 'X'
  }

  /** Every glyph is drawn edge to edge with no blank row: the property that
      makes a printout crop to itself. */
  ghost predicate Drawn(tab: Table)
  {
    (forall k :: 0 <= k < |tab| ==> LeftEdge(tab, k)) &&
    (forall k :: 0 <= k < |tab| ==> RightEdge(tab, k)) &&
    (forall k, r :: 0 <= k < |tab| && 0 <= r < 6 ==> RowHasDot(tab, k, r))
  }

  /** `DICTIONARY` is drawn edge to edge with no blank row. */
  lemma DictionaryDrawn()
    ensures Drawn(Dictionary)
  {
    forall k | 0 <= k < |Dictionary| ensures LeftEdge(Dictionary, k) {
      if k < 9 {
        LeftDrawn0(k);
      } else {
        LeftDrawn9(k);
      }
    }
    forall k | 0 <= k < |Dictionary| ensures RightEdge(Dictionary, k) {
      if k < 9 {
        RightDrawn0(k);
      } else {
        RightDrawn9(k);
      }
    }
    forall k, r | 0 <= k < |Dictionary| && 0 <= r < 6 ensures RowHasDot(Dictionary, k, r) {
      if k < 3 {
        RowsDrawn0(k);
      } else if k < 6 {
        RowsDrawn3(k);
      } else if k < 9 {
        RowsDrawn6(k);
      } else if k < 12 {
        RowsDrawn9(k);
      } else if k < 15 {
        RowsDrawn12(k);
      } else {
        RowsDrawn15(k);
      }
    }
  }

  lemma LeftDrawn0(k: nat)
    requires k < 9
    ensures LeftEdge(Dictionary, k)
  {
    if k == 0 {
      assert Cell(Dictionary, k, 1, 0) == 'X';
    } else if k == 1 {
      assert Cell(Dictionary, k, 0, 0) == 'X';
    } else if k == 2 {
      assert Cell(Dictionary, k, 1, 0) == 'X';
    } else if k == 3 {
      assert Cell(Dictionary, k, 0, 0) == 'X';
    } else if k == 4 {
      assert Cell(Dictionary, k, 0, 0) == 'X';
    } else if k == 5 {
      assert Cell(Dictionary, k, 1, 0) == 'X';
    } else if k == 6 {
      assert Cell(Dictionary, k, 0, 0) == 'X';
    } else if k == 7 {
      assert Cell(Dictionary, k, 4, 0) == 'X';
    } else if k == 8 {
      assert Cell(Dictionary, k, 0, 0) == 'X';
    }
  }

  lemma LeftDrawn9(k: nat)
    requires 9 <= k < 17
    ensures LeftEdge(Dictionary, k)
  {
    if k == 9 {
      assert Cell(Dictionary, k, 0, 0) == 'X';
    } else if k == 10 {
      assert Cell(Dictionary, k, 1, 0) == 'X';
    } else if k == 11 {
      assert Cell(Dictionary, k, 0, 0) == 'X';
    } else if k == 12 {
      assert Cell(Dictionary, k, 0, 0) == 'X';
    } else if k == 13 {
      assert Cell(Dictionary, k, 1, 0) == 'X';
    } else if k == 14 {
      assert Cell(Dictionary, k, 0, 0) == 'X';
    } else if k == 15 {
      assert Cell(Dictionary, k, 0, 0) == 'X';
    } else if k == 16 {
      assert Cell(Dictionary, k, 0, 0) == 'X';
    }
  }

  lemma RightDrawn0(k: nat)
    requires k < 9
    ensures RightEdge(Dictionary, k)
  {
    if k == 0 {
      assert Cell(Dictionary, k, 1, 3) == 'X';
    } else if k == 1 {
      assert Cell(Dictionary, k, 1, 3) == 'X';
    } else if k == 2 {
      assert Cell(Dictionary, k, 1, 3) == 'X';
    } else if k == 3 {
      assert Cell(Dictionary, k, 0, 3) == 'X';
    } else if k == 4 {
      assert Cell(Dictionary, k, 0, 3) == 'X';
    } else if k == 5 {
      assert Cell(Dictionary, k, 1, 3) == 'X';
    } else if k == 6 {
      assert Cell(Dictionary, k, 0, 3) == 'X';
    } else if k == 7 {
      assert Cell(Dictionary, k, 0, 3) == 'X';
    } else if k == 8 {
      assert Cell(Dictionary, k, 0, 3) == 'X';
    }
  }

  lemma RightDrawn9(k: nat)
    requires 9 <= k < 17
    ensures RightEdge(Dictionary, k)
  {
    if k == 9 {
      assert Cell(Dictionary, k, 5, 3) == 'X';
    } else if k == 10 {
      assert Cell(Dictionary, k, 1, 3) == 'X';
    } else if k == 11 {
      assert Cell(Dictionary, k, 1, 3) == 'X';
    } else if k == 12 {
      assert Cell(Dictionary, k, 1, 3) == 'X';
    } else if k == 13 {
      assert Cell(Dictionary, k, 0, 3) == 'X';
    } else if k == 14 {
      assert Cell(Dictionary, k, 0, 3) == 'X';
    } else if k == 15 {
      assert Cell(Dictionary, k, 0, 4) == 'X';
    } else if k == 16 {
      assert Cell(Dictionary, k, 0, 3) == 'X';
    }
  }

  lemma RowsDrawn0(k: nat)
    requires k < 3
    ensures forall r :: 0 <= r < 6 ==> RowHasDot(Dictionary, k, r)
  {
    if k == 0 {
      assert Cell(Dictionary, k, 0, 1) == 'X' && Cell(Dictionary, k, 1, 0) == 'X' && Cell(Dictionary, k, 2, 0) == 'X' && Cell(Dictionary, k, 3, 0) == 'X' && Cell(Dictionary, k, 4, 0) == 'X' && Cell(Dictionary, k, 5, 0) == 'X';
    } else if k == 1 {
      assert Cell(Dictionary, k, 0, 0) == 'X' && Cell(Dictionary, k, 1, 0) == 'X' && Cell(Dictionary, k, 2, 0) == 'X' && Cell(Dictionary, k, 3, 0) == 'X' && Cell(Dictionary, k, 4, 0) == 'X' && Cell(Dictionary, k, 5, 0) == 'X';
    } else if k == 2 {
      assert Cell(Dictionary, k, 0, 1) == 'X' && Cell(Dictionary, k, 1, 0) == 'X' && Cell(Dictionary, k, 2, 0) == 'X' && Cell(Dictionary, k, 3, 0) == 'X' && Cell(Dictionary, k, 4, 0) == 'X' && Cell(Dictionary, k, 5, 1) == 'X';
    }
  }

  lemma RowsDrawn3(k: nat)
    requires 3 <= k < 6
    ensures forall r :: 0 <= r < 6 ==> RowHasDot(Dictionary, k, r)
  {
    if k == 3 {
      assert Cell(Dictionary, k, 0, 0) == 'X' && Cell(Dictionary, k, 1, 0) == 'X' && Cell(Dictionary, k, 2, 0) == 'X' && Cell(Dictionary, k, 3, 0) == 'X' && Cell(Dictionary, k, 4, 0) == 'X' && Cell(Dictionary, k, 5, 0) == 'X';
    } else if k == 4 {
      assert Cell(Dictionary, k, 0, 0) == 'X' && Cell(Dictionary, k, 1, 0) == 'X' && Cell(Dictionary, k, 2, 0) == 'X' && Cell(Dictionary, k, 3, 0) == 'X' && Cell(Dictionary, k, 4, 0) == 'X' && Cell(Dictionary, k, 5, 0) == 'X';
    } else if k == 5 {
      assert Cell(Dictionary, k, 0, 1) == 'X' && Cell(Dictionary, k, 1, 0) == 'X' && Cell(Dictionary, k, 2, 0) == 'X' && Cell(Dictionary, k, 3, 0) == 'X' && Cell(Dictionary, k, 4, 0) == 'X' && Cell(Dictionary, k, 5, 1) == 'X';
    }
  }

  lemma RowsDrawn6(k: nat)
    requires 6 <= k < 9
    ensures forall r :: 0 <= r < 6 ==> RowHasDot(Dictionary, k, r)
  {
    if k == 6 {
      assert Cell(Dictionary, k, 0, 0) == 'X' && Cell(Dictionary, k, 1, 0) == 'X' && Cell(Dictionary, k, 2, 0) == 'X' && Cell(Dictionary, k, 3, 0) == 'X' && Cell(Dictionary, k, 4, 0) == 'X' && Cell(Dictionary, k, 5, 0) == 'X';
    } else if k == 7 {
      assert Cell(Dictionary, k, 0, 2) == 'X' && Cell(Dictionary, k, 1, 3) == 'X' && Cell(Dictionary, k, 2, 3) == 'X' && Cell(Dictionary, k, 3, 3) == 'X' && Cell(Dictionary, k, 4, 0) == 'X' && Cell(Dictionary, k, 5, 1) == 'X';
    } else if k == 8 {
      assert Cell(Dictionary, k, 0, 0) == 'X' && Cell(Dictionary, k, 1, 0) == 'X' && Cell(Dictionary, k, 2, 0) == 'X' && Cell(Dictionary, k, 3, 0) == 'X' && Cell(Dictionary, k, 4, 0) == 'X' && Cell(Dictionary, k, 5, 0) == 'X';
    }
  }

  lemma RowsDrawn9(k: nat)
    requires 9 <= k < 12
    ensures forall r :: 0 <= r < 6 ==> RowHasDot(Dictionary, k, r)
  {
    if k == 9 {
      assert Cell(Dictionary, k, 0, 0) == 'X' && Cell(Dictionary, k, 1, 0) == 'X' && Cell(Dictionary, k, 2, 0) == 'X' && Cell(Dictionary, k, 3, 0) == 'X' && Cell(Dictionary, k, 4, 0) == 'X' && Cell(Dictionary, k, 5, 0) == 'X';
    } else if k == 10 {
      assert Cell(Dictionary, k, 0, 1) == 'X' && Cell(Dictionary, k, 1, 0) == 'X' && Cell(Dictionary, k, 2, 0) == 'X' && Cell(Dictionary, k, 3, 0) == 'X' && Cell(Dictionary, k, 4, 0) == 'X' && Cell(Dictionary, k, 5, 1) == 'X';
    } else if k == 11 {
      assert Cell(Dictionary, k, 0, 0) == 'X' && Cell(Dictionary, k, 1, 0) == 'X' && Cell(Dictionary, k, 2, 0) == 'X' && Cell(Dictionary, k, 3, 0) == 'X' && Cell(Dictionary, k, 4, 0) == 'X' && Cell(Dictionary, k, 5, 0) == 'X';
    }
  }

  lemma RowsDrawn12(k: nat)
    requires 12 <= k < 15
    ensures forall r :: 0 <= r < 6 ==> RowHasDot(Dictionary, k, r)
  {
    if k == 12 {
      assert Cell(Dictionary, k, 0, 0) == 'X' && Cell(Dictionary, k, 1, 0) == 'X' && Cell(Dictionary, k, 2, 0) == 'X' && Cell(Dictionary, k, 3, 0) == 'X' && Cell(Dictionary, k, 4, 0) == 'X' && Cell(Dictionary, k, 5, 0) == 'X';
    } else if k == 13 {
      assert Cell(Dictionary, k, 0, 1) == 'X' && Cell(Dictionary, k, 1, 0) == 'X' && Cell(Dictionary, k, 2, 0) == 'X' && Cell(Dictionary, k, 3, 1) == 'X' && Cell(Dictionary, k, 4, 3) == 'X' && Cell(Dictionary, k, 5, 0) == 'X';
    } else if k == 14 {
      assert Cell(Dictionary, k, 0, 0) == 'X' && Cell(Dictionary, k, 1, 0) == 'X' && Cell(Dictionary, k, 2, 0) == 'X' && Cell(Dictionary, k, 3, 0) == 'X' && Cell(Dictionary, k, 4, 0) == 'X' && Cell(Dictionary, k, 5, 1) == 'X';
    }
  }

  lemma RowsDrawn15(k: nat)
    requires 15 <= k < 17
    ensures forall r :: 0 <= r < 6 ==> RowHasDot(Dictionary, k, r)
  {
    if k == 15 {
      assert Cell(Dictionary, k, 0, 0) == 'X' && Cell(Dictionary, k, 1, 0) == 'X' && Cell(Dictionary, k, 2, 1) == 'X' && Cell(Dictionary, k, 3, 2) == 'X' && Cell(Dictionary, k, 4, 2) == 'X' && Cell(Dictionary, k, 5, 2) == 'X';
    } else if k == 16 {
      assert Cell(Dictionary, k, 0, 0) == 'X' && Cell(Dictionary, k, 1, 3) == 'X' && Cell(Dictionary, k, 2, 2) == 'X' && Cell(Dictionary, k, 3, 1) == 'X' && Cell(Dictionary, k, 4, 0) == 'X' && Cell(Dictionary, k, 5, 0) == 'X';
    }
  }

  /** A printout of at least one letter starts at its first column: every
      row has a dot, and some row has one in column 0. */
  lemma FirstColumn(tab: Table, ks: seq<nat>, on: char, off: char)
    requires Drawn(tab) && Entries(tab, ks) && |ks| > 0 && on != ' '
    ensures FirstPosition(Render(tab, ks, on, off)) == Some(0)
  {
    var rows := Render(tab, ks, on, off);
    forall r | 0 <= r < 6 ensures FirstDot(rows[r]).Some? {
      assert RowHasDot(tab, ks[0], r);
      var c :| 0 <= c < CharWidth && Cell(tab, ks[0], r, c) == 'X';
      RenderCell(tab, ks, on, off, r, 0, c);
      assert rows[r][c] == on;
    }
    assert LeftEdge(tab, ks[0]);
    var r0 :| 0 <= r0 < 6 && Cell(tab, ks[0], r0, 0) == 'X';
    RenderCell(tab, ks, on, off, r0, 0, 0);
    assert FirstDot(rows[r0]) == Some(0);
  }

  /** The last dot of a printout is in the fourth or fifth column of its
      last letter. */
  lemma LastColumn(tab: Table, ks: seq<nat>, on: char, off: char)
    requires Drawn(tab) && Entries(tab, ks) && |ks| > 0 && on != ' '
    requires LastDotColumn(Render(tab, ks, on, off)).Some?
    ensures LastDotColumn(Render(tab, ks, on, off)).value + 2 >= CharWidth * |ks|
  {
    var rows := Render(tab, ks, on, off);
    var n := |ks|;
    assert RightEdge(tab, ks[n - 1]);
    var r1 :| 0 <= r1 < 6 && (Cell(tab, ks[n - 1], r1, 3) == 'X' || Cell(tab, ks[n - 1], r1, 4) == 'X');
    var c1 := if Cell(tab, ks[n - 1], r1, 4) == 'X' then 4 else 3;
    RenderCell(tab, ks, on, off, r1, n - 1, c1);
    assert LastDot(rows[r1]).value >= CharWidth * (n - 1) + c1;
  }

  /** A printout of at least one letter, with `on` not a space, is its own
      printable content. */
  lemma CropIsWhole(tab: Table, ks: seq<nat>, on: char, off: char)
    requires Drawn(tab) && Entries(tab, ks) && |ks| > 0 && on != ' '
    ensures PrintableContent(Render(tab, ks, on, off)) == Some(Render(tab, ks, on, off))
  {
    var rows := Render(tab, ks, on, off);
    FirstColumn(tab, ks, on, off);
    BothPositions(rows);
    LastColumn(tab, ks, on, off);
    var lastDot := LastDotColumn(rows).value;
    var content := PrintableContent(rows).value;
    forall i | 0 <= i < 6 ensures content[i] == rows[i] {
      assert CropEnd(rows[i], lastDot) == |rows[i]|;
      assert rows[i][0..|rows[i]|] == rows[i];
    }
    assert |content| == |rows|;
    assert content == rows;
  }

  /** Block `k` of a printout reads as the letter of entry `ks[k]`. */
  lemma BlockOfRender(tab: Table, ks: seq<nat>, on: char, off: char, k: nat)
    requires Shaped(tab) && Distinct(tab) && Entries(tab, ks) && k < |ks| && on != off
    ensures BlockLetter(tab, Render(tab, ks, on, off), [on], [off], k) == Some(Letter(tab, ks[k]))
  {
    var rows := Render(tab, ks, on, off);
    var g := tab[ks[k]].1;
    assert SixByFive(g);
    var b := Block(rows, k).value;
    var norm := Normalise(b, [on], [off]);
    forall i | 0 <= i < 6 ensures norm[i] == g[i] {
      forall t | 0 <= t < CharWidth ensures norm[i][t] == g[i][t] {
        RenderCell(tab, ks, on, off, i, k, t);
        assert b[i][t] == rows[i][CharWidth * k + t] == Paint(g[i][t], on, off);
      }
    }
    assert norm == g;
    LookupGlyph(tab, ks[k]);
  }

  /** Blocks that read as the letters of `ks` decode to those letters. */
  lemma {:induction false} DecodeLetters(tab: Table, content: seq<seq<char>>, on: string, off: string, ks: seq<nat>, k: nat)
    requires Entries(tab, ks) && k <= |ks|
    requires forall m :: k <= m < |ks| ==> BlockLetter(tab, content, on, off, m) == Some(Letter(tab, ks[m]))
    ensures DecodeFrom(tab, content, on, off, k, |ks|) == Ok(Letters(tab, ks[k..]))
    decreases |ks| - k
  {
    if k < |ks| {
      DecodeLetters(tab, content, on, off, ks, k + 1);
      LettersCons(tab, ks, k);
    } else {
      assert Letters(tab, ks[k..]) == "";
    }
  }

  lemma LettersCons(tab: Table, ks: seq<nat>, k: nat)
    requires Entries(tab, ks) && k < |ks|
    ensures Letters(tab, ks[k..]) == [Letter(tab, ks[k])] + Letters(tab, ks[k + 1..])
  {
    assert ks[k..][1..] == ks[k + 1..];
  }

  /** For any table drawn edge to edge with distinct glyphs, a printout of
      its letters crops to itself and reads back as those letters. */
  lemma ReadBack(tab: Table, ks: seq<nat>, on: char, off: char)
    requires Shaped(tab) && Distinct(tab) && Drawn(tab)
    requires Entries(tab, ks) && |ks| > 0
    requires on != off && on != ' '
    ensures PrintableContent(Render(tab, ks, on, off)) == Some(Render(tab, ks, on, off))
    ensures MaxChars(Render(tab, ks, on, off)) == |ks|
    ensures DecodeFrom(tab, Render(tab, ks, on, off), [on], [off], 0, |ks|) == Ok(Letters(tab, ks))
  {
    var rows := Render(tab, ks, on, off);
    CropIsWhole(tab, ks, on, off);
    forall m | 0 <= m < |ks| ensures BlockLetter(tab, rows, [on], [off], m) == Some(Letter(tab, ks[m])) {
      BlockOfRender(tab, ks, on, off, m);
    }
    DecodeLetters(tab, rows, [on], [off], ks, 0);
    assert ks[0..] == ks;
  }

  /** Printing letters of `DICTIONARY` and decoding the printout gives the
      letters back, upper-cased: with the default characters or with any
      other pair whose "on" character is not a space. */
  lemma RoundTrip(ks: seq<nat>, on: char, off: char)
    requires Entries(Dictionary, ks) && |ks| > 0
    requires on != off && on != ' '
    ensures Decoded(Render(Dictionary, ks, on, off), [on], [off]) == Ok(Letters(Dictionary, ks))
  {
    TableShape();
    DictionaryDrawn();
    ReadBack(Dictionary, ks, on, off);
  }

  /** Entries h, e, l, l, o spell "HELLO". */
  lemma HelloLetters(hello: seq<nat>)
    requires hello == [6, 3, 9, 9, 10]
    ensures Entries(Dictionary, hello) && Letters(Dictionary, hello) == "HELLO"
  {
    assert Letter(Dictionary, 6) == 'H' && Letter(Dictionary, 3) == 'E';
    assert Letter(Dictionary, 9) == 'L' && Letter(Dictionary, 10) == 'O';
  }

  /** The printout of "HELLO" (entries h, e, l, l, o), in the default
      characters and in `#`/`.`, reads as "HELLO". */
  lemma Hello(hello: seq<nat>)
    requires hello == [6, 3, 9, 9, 10]
    ensures Decoded(Render(Dictionary, hello, 'X', ' '), "X", " ") == Ok("HELLO")
    ensures Decoded(Render(Dictionary, hello, '#', '.'), "#", ".") == Ok("HELLO")
  {
    HelloLetters(hello);
    RoundTrip(hello, 'X', ' ');
    RoundTrip(hello, '#', '.');
  }
}
