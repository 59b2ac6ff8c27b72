/** `AocInput`: a chainable view of a puzzle input. Each step replaces the
    parsed data and switches the steps it makes available on or off. */
module AocInputs {
  import opened Wrappers
  import Matrix
  import Text
  import Grids

  // ---------------------------------------------------------------------
  // String#split and String#to_i

  /** The characters Ruby's awk-style `split` and `to_i` treat as white space. */
  predicate IsSpace(c: char)
  {
    c == ' ' || c == '\t' || c == '\n' || c == '\U{B}' || c == '\U{C}' || c == '\r'
  }

  predicate IsDigit(c: char)
  {
    '0' <= c <= '9'
  }

  /** Length of the leading run of white space. */
  function SpaceRun(s: string): (k: nat)
    ensures k <= |s| && (forall i :: 0 <= i < k ==> IsSpace(s[i])) && (k < |s| ==> !IsSpace(s[k]))
  {
    if |s| == 0 || !IsSpace(s[0]) then 0 else 1 + SpaceRun(s[1..])
  }

  /** Length of the leading run of non-space characters. */
  function WordRun(s: string): (k: nat)
    ensures k <= |s| && (forall i :: 0 <= i < k ==> !IsSpace(s[i])) && (k < |s| ==> IsSpace(s[k]))
  {
    if |s| == 0 || IsSpace(s[0]) then 0 else 1 + WordRun(s[1..])
  }

  /** `split` with no delimiter (or `" "`): the maximal runs of non-space
      characters, leading and trailing white space ignored. */
  function Words(s: string): (ws: seq<string>)
    decreases |s|
  {
    var k := SpaceRun(s);
    if k == |s| then []
    else
      var rest := s[k..];
      var w := WordRun(rest);
      [rest[..w]] + Words(rest[w..])
  }

  /** A word as `Words` produces it: non-empty, no white space. */
  ghost predicate Word(w: string)
  {
    |w| > 0 && forall i :: 0 <= i < |w| ==> !IsSpace(w[i])
  }

  /** Every piece `Words` yields is a word. */
  lemma {:induction false} WordsAreWords(s: string)
    ensures forall j :: 0 <= j < |Words(s)| ==> Word(Words(s)[j])
    decreases |s|
  {
    var k := SpaceRun(s);
    if k < |s| {
      var rest := s[k..];
      var w := WordRun(rest);
      WordsAreWords(rest[w..]);
      assert Words(s) == [rest[..w]] + Words(rest[w..]);
    }
  }

  /** Words joined by single spaces. */
  function Unwords(ws: seq<string>): string
  {
    if |ws| == 0 then "" else if |ws| == 1 then ws[0] else ws[0] + " " + Unwords(ws[1..])
  }

  /** Splitting on white space undoes joining words with spaces. */
  lemma {:induction false} WordsUnwords(ws: seq<string>)
    requires forall j :: 0 <= j < |ws| ==> Word(ws[j])
    ensures Words(Unwords(ws)) == ws
  {
    if |ws| == 1 {
      WordsCons(ws[0], "");
      assert ws[0] + "" == ws[0];
      assert ws == [ws[0]];
    } else if |ws| > 1 {
      WordsUnwords(ws[1..]);
      WordThenRest(ws[0], Unwords(ws[1..]), ws[1..]);
      assert ws == [ws[0]] + ws[1..];
    }
  }

  /** A word, a space and a text with words `rest` have words `[w] + rest`. */
  lemma WordThenRest(w: string, t: string, rest: seq<string>)
    requires Word(w) && Words(t) == rest
    ensures Words(w + " " + t) == [w] + rest
  {
    assert w + " " + t == w + (" " + t);
    WordsCons(w, " " + t);
    LeadingSpace(t);
  }

  /** A word followed by nothing or by white space is the first word. */
  lemma WordsCons(w: string, rest: string)
    requires Word(w) && (|rest| == 0 || IsSpace(rest[0]))
    ensures Words(w + rest) == [w] + Words(rest)
  {
    var s := w + rest;
    assert s[0] == w[0];
    assert SpaceRun(s) == 0;
    assert s[0..] == s;
    WordRunOf(w, rest);
  }

  /** A leading space does not change the words. */
  lemma LeadingSpace(t: string)
    ensures Words(" " + t) == Words(t)
  {
    var s := " " + t;
    assert s[1..] == t;
    assert SpaceRun(s) == 1 + SpaceRun(t);
    assert s[SpaceRun(s)..] == t[SpaceRun(t)..];
  }

  /** The word at the front of `w + rest`, with `rest` empty or starting with a space. */
  lemma {:induction false} WordRunOf(w: string, rest: string)
    requires forall i :: 0 <= i < |w| ==> !IsSpace(w[i])
    requires |rest| == 0 || IsSpace(rest[0])
    ensures WordRun(w + rest) == |w| && (w + rest)[..|w|] == w && (w + rest)[|w|..] == rest
  {
    if |w| > 0 {
      assert (w + rest)[1..] == w[1..] + rest;
      WordRunOf(w[1..], rest);
    }
  }

  /** `d` occurs in `s` at position `j`. */
  ghost predicate At(s: string, j: nat, d: string)
  {
    j + |d| <= |s| && s[j..j + |d|] == d
  }

  /** An occurrence past the first character is one in the rest of the text. */
  lemma AtTail(s: string, d: string)
    requires |s| > 0
    ensures forall j: nat :: 1 <= j ==> (At(s, j, d) <==> At(s[1..], j - 1, d))
  {
    forall j: nat | 1 <= j ensures At(s, j, d) <==> At(s[1..], j - 1, d) {
      if j + |d| <= |s| {
        TailSlice(s, j, j + |d|);
      }
    }
  }

  lemma TailSlice(s: string, i: nat, j: nat)
    requires 1 <= i <= j <= |s|
    ensures s[1..][i - 1..j - 1] == s[i..j]
  {
  }

  /** Index of the first occurrence of `d` in `s`, or `|s|` when there is none. */
  function Find(s: string, d: string): (i: nat)
    requires |d| > 0
    ensures i == |s| || (i < |s| && At(s, i, d))
    ensures forall j: nat :: j < i ==> !At(s, j, d)
  {
    if |s| < |d| then |s|
    else if s[..|d|] == d then
      assert s[0..|d|] == s[..|d|];
      0
    else
      assert s[0..|d|] == s[..|d|];
      var i := Find(s[1..], d);
      AtTail(s, d);
      1 + i
  }

  /** The pieces between the occurrences of `d`, scanning left to right,
      empty pieces included. */
  function SplitAll(s: string, d: string): (ps: seq<string>)
    requires |d| > 0
    ensures |ps| > 0
    decreases |s|
  {
    var i := Find(s, d);
    if i == |s| then [s] else [s[..i]] + SplitAll(s[i + |d|..], d)
  }

  /** The pieces joined with `d` between them. */
  function Join(ps: seq<string>, d: string): string
  {
    if |ps| == 0 then "" else if |ps| == 1 then ps[0] else ps[0] + d + Join(ps[1..], d)
  }

  /** Joining the pieces gives the text back. */
  lemma {:induction false} JoinSplitAll(s: string, d: string)
    requires |d| > 0
    ensures Join(SplitAll(s, d), d) == s
    decreases |s|
  {
    var i := Find(s, d);
    if i < |s| {
      var rest := s[i + |d|..];
      JoinSplitAll(rest, d);
      CutAt(s, d, i);
      JoinCons(s[..i], SplitAll(rest, d), d);
    }
  }

  /** Where `d` first occurs, the text is cut into the piece before it and the rest. */
  lemma CutAt(s: string, d: string, i: nat)
    requires |d| > 0 && i == Find(s, d) && i < |s|
    ensures SplitAll(s, d) == [s[..i]] + SplitAll(s[i + |d|..], d)
    ensures s == s[..i] + d + s[i + |d|..]
  {
    assert At(s, i, d);
    Around(s, i, i + |d|);
  }

  /** A text is what lies before, within and after a slice of it. */
  lemma Around(s: string, i: nat, j: nat)
    requires i <= j <= |s|
    ensures s == s[..i] + s[i..j] + s[j..]
  {
  }

  /** Joining a piece in front of non-empty pieces puts `d` after it. */
  lemma JoinCons(p: string, ps: seq<string>, d: string)
    requires |ps| > 0
    ensures Join([p] + ps, d) == p + d + Join(ps, d)
  {
    assert ([p] + ps)[1..] == ps;
  }

  /** `split` drops the empty pieces at the end. */
  function DropTrailingEmpty(ps: seq<string>): (r: seq<string>)
    ensures |r| <= |ps| && r == ps[..|r|]
    ensures |r| > 0 ==> |r[|r| - 1]| > 0
    ensures forall j :: |r| <= j < |ps| ==> ps[j] == ""
  {
    if |ps| == 0 then []
    else if ps[|ps| - 1] == "" then DropTrailingEmpty(ps[..|ps| - 1])
    else ps
  }

  /** `String#split(delimiter)`: with no delimiter or `" "` the white-space
      separated words; with `""` the single characters; otherwise the pieces
      between the occurrences of the delimiter, trailing empty ones dropped. */
  function Split(s: string, delimiter: Option<string>): (ps: seq<string>)
  {
    match delimiter
    case None => Words(s)
    case Some(d) =>
      if d == " " then Words(s)
      else if d == "" then seq(|s|, i requires 0 <= i < |s| => [s[i]])
      else DropTrailingEmpty(SplitAll(s, d))
  }

  /** The value of a digit character. */
  function DigitValue(c: char): int
    requires IsDigit(c)
  {
    c as int - '0' as int
  }

  /** Length of the leading digits of `s`, where a single `_` between two
      digits also belongs to the number. */
  function DigitRun(s: string): (k: nat)
    ensures k <= |s|
  {
    if |s| == 0 || !IsDigit(s[0]) then 0
    else if |s| >= 3 && s[1] == '_' && IsDigit(s[2]) then 2 + DigitRun(s[2..])
    else 1 + DigitRun(s[1..])
  }

  /** The value of a run of digits and single underscores, read left to right. */
  function DigitsValue(s: string): (v: nat)
  {
    if |s| == 0 then 0
    else
      var last := s[|s| - 1];
      if IsDigit(last) then DigitsValue(s[..|s| - 1]) * 10 + DigitValue(last)
      else DigitsValue(s[..|s| - 1])
  }

  /** The text after an optional `0d` / `0D` radix prefix, which base 10 allows. */
  function Unprefixed(t: string): string
  {
    if |t| >= 2 && t[0] == '0' && (t[1] == 'd' || t[1] == 'D') then t[2..] else t
  }

  /** The value of the unsigned part: the prefix skipped, then the leading digits. */
  function Magnitude(t: string): nat
  {
    var u := Unprefixed(t);
    DigitsValue(u[..DigitRun(u)])
  }

  /** `String#to_i`: leading white space skipped, an optional sign, an
      optional `0d` prefix, then the leading digits; anything else ends the
      number, and no digits give 0. */
  function ToI(s: string): int
  {
    var t := s[SpaceRun(s)..];
    if |t| > 0 && t[0] == '-' then 0 - Magnitude(t[1..])
    else if |t| > 0 && t[0] == '+' then Magnitude(t[1..])
    else Magnitude(t)
  }

  /** Decimal digits of a natural number, most significant first, without
      leading zeros (and `"0"` for zero). */
  function ShowNat(v: nat): (s: string)
    ensures |s| > 0 && forall i :: 0 <= i < |s| ==> IsDigit(s[i])
  {
    if v < 10 then [('0' as int + v) as char] else ShowNat(v / 10) + [('0' as int + v % 10) as char]
  }

  /** `Integer#to_s`. */
  function Show(x: int): string
  {
    if x < 0 then "-" + ShowNat(-x) else ShowNat(x)
  }

  lemma {:induction false} DigitsValueShow(v: nat)
    ensures DigitsValue(ShowNat(v)) == v
  {
    if v >= 10 {
      DigitsValueShow(v / 10);
      var s := ShowNat(v);
      assert s[..|s| - 1] == ShowNat(v / 10);
    }
  }

  /** A string of digits alone is read to its end. */
  lemma {:induction false} DigitRunAll(s: string)
    requires forall i :: 0 <= i < |s| ==> IsDigit(s[i])
    ensures DigitRun(s) == |s|
  {
    if |s| > 0 {
      DigitRunAll(s[1..]);
    }
  }

  /** `to_i` reads back what `to_s` writes. */
  lemma ToIShow(x: int)
    ensures ToI(Show(x)) == x
  {
    var s := Show(x);
    var digits := ShowNat(if x < 0 then -x else x);
    assert SpaceRun(s) == 0;
    assert s[0..] == s;
    DigitsValueShow(if x < 0 then -x else x);
    if x < 0 {
      assert s[1..] == digits;
    }
    assert Unprefixed(digits) == digits by {
      assert |digits| >= 2 ==> IsDigit(digits[1]);
    }
    DigitRunAll(digits);
    assert digits[..|digits|] == digits;
  }

  /** The base-10 radix prefix is skipped: `"0d12".to_i == 12`. */
  lemma DecimalPrefix()
    ensures ToI("0d12") == 12 && ToI("-0D7") == -7
  {
    assert Magnitude("0d12") == 12 by {
      assert Unprefixed("0d12") == "12";
      DigitRunAll("12");
      assert "12"[..2] == "12" && "12"[..1] == "1" && "1"[..0] == "";
    }
    assert Magnitude("0D7") == 7 by {
      assert Unprefixed("0D7") == "7";
      DigitRunAll("7");
      assert "7"[..1] == "7" && "7"[..0] == "";
    }
    assert SpaceRun("0d12") == 0 && "0d12"[0..] == "0d12";
    assert SpaceRun("-0D7") == 0 && "-0D7"[0..] == "-0D7" && "-0D7"[1..] == "0D7";
  }

  /** Leading zeros do not count: `"012".to_i == 12`. */
  lemma LeadingZero()
    ensures ToI("012") == 12
  {
    assert DigitRun("012") == 3 by {
      assert "012"[1..] == "12";
      assert "12"[1..] == "2";
      assert "2"[1..] == "";
    }
    assert "012"[..3] == "012";
    assert "012"[..2] == "01";
    assert "01"[..1] == "0";
    assert "0"[..0] == "";
  }

  // ---------------------------------------------------------------------
  // The transformations on the data

  /** The numbers of `columns_of_numbers`: each line split on the delimiter, every piece read as an integer. */
  function ColumnsOf(lines: seq<string>, delimiter: Option<string>): (rows: seq<seq<int>>)
    ensures |rows| == |lines|
    ensures forall i :: 0 <= i < |lines| ==> |rows[i]| == |Split(lines[i], delimiter)|
    ensures forall i, j :: 0 <= i < |lines| && 0 <= j < |rows[i]| ==> rows[i][j] == ToI(Split(lines[i], delimiter)[j])
  {
    seq(|lines|, i requires 0 <= i < |lines| =>
      var ws := Split(lines[i], delimiter);
      seq(|ws|, j requires 0 <= j < |ws| => ToI(ws[j])))
  }

  ghost predicate Ascending(s: seq<int>)
  {
    forall i, j :: 0 <= i < j < |s| ==> s[i] <= s[j]
  }

  /** Inserts `x` into an ascending sequence, keeping it ascending. */
  function Insert(x: int, s: seq<int>): (r: seq<int>)
    requires Ascending(s)
    ensures Ascending(r) && multiset(r) == multiset(s) + multiset{x}
    ensures forall i :: 0 <= i < |r| ==> r[i] == x || r[i] in s
  {
    if |s| == 0 then [x]
    else if x <= s[0] then [x] + s
    else
      var rest := Insert(x, s[1..]);
      InsertBehind(x, s, rest);
      [s[0]] + rest
  }

  /** Putting the head of `s` in front of `x` inserted into its tail keeps
      the order and the elements. */
  lemma InsertBehind(x: int, s: seq<int>, rest: seq<int>)
    requires Ascending(s) && |s| > 0 && s[0] < x
    requires Ascending(rest) && multiset(rest) == multiset(s[1..]) + multiset{x}
    requires forall i :: 0 <= i < |rest| ==> rest[i] == x || rest[i] in s[1..]
    ensures Ascending([s[0]] + rest) && multiset([s[0]] + rest) == multiset(s) + multiset{x}
    ensures forall i :: 0 <= i < |[s[0]] + rest| ==> ([s[0]] + rest)[i] == x || ([s[0]] + rest)[i] in s
  {
    assert s == [s[0]] + s[1..];
    HeadBelow(x, s, rest);
  }

  /** The head of an ascending `s` is at most `x` inserted into its tail. */
  lemma HeadBelow(x: int, s: seq<int>, rest: seq<int>)
    requires Ascending(s) && |s| > 0 && s[0] < x
    requires forall i :: 0 <= i < |rest| ==> rest[i] == x || rest[i] in s[1..]
    ensures forall i :: 0 <= i < |rest| ==> s[0] <= rest[i]
  {
    forall i | 0 <= i < |rest| ensures s[0] <= rest[i] {
      if rest[i] != x {
        var j :| 0 <= j < |s[1..]| && s[1..][j] == rest[i];
        assert s[j + 1] == rest[i];
      }
    }
  }

  /** `Array#sort` on integers: ascending, with the same elements. */
  function Sort(s: seq<int>): (r: seq<int>)
    ensures Ascending(r) && multiset(r) == multiset(s)
  {
    if |s| == 0 then []
    else
      assert s == [s[0]] + s[1..];
      Insert(s[0], Sort(s[1..]))
  }

  /** The data of `sort_arrays`: each row sorted, row order kept. */
  function SortEach(rows: seq<seq<int>>): (r: seq<seq<int>>)
    ensures |r| == |rows|
    ensures forall i :: 0 <= i < |rows| ==> Ascending(r[i]) && multiset(r[i]) == multiset(rows[i])
  {
    seq(|rows|, i requires 0 <= i < |rows| => Sort(rows[i]))
  }

  /** Every row has the length of the first. */
  predicate SameLengths(rows: seq<seq<int>>)
    ensures SameLengths(rows) <==> Matrix.Rectangular(rows)
  {
    forall i :: 0 <= i < |rows| ==> |rows[i]| == Matrix.Width(rows)
  }

  /** `Array#transpose`: the rows must all have the length of the first. */
  function TransposeRows(rows: seq<seq<int>>): (r: Result<seq<seq<int>>>)
    ensures r.Ok? <==> Matrix.Rectangular(rows)
    ensures r.Err? ==> r.error == "element size differs"
    ensures r.Ok? ==> Matrix.Rectangular(r.value) && (|r.value| > 0 ==> Matrix.Width(r.value) == |rows|)
    ensures r.Ok? ==> (|r.value| == Matrix.Width(rows) &&
      forall j, i :: 0 <= j < Matrix.Width(rows) && 0 <= i < |rows| ==> r.value[j][i] == rows[i][j])
  {
    if SameLengths(rows) then
      Matrix.TransposeCells(rows);
      Ok(Matrix.Transpose(rows))
    else Err("element size differs")
  }

  /** The worked example `[[123, 456], [789, 12], [345, 678]]` turned on its side. */
  lemma TransposeExample()
    ensures Matrix.Rectangular([[123, 456], [789, 12], [345, 678]])
    ensures Matrix.Transpose([[123, 456], [789, 12], [345, 678]]) == [[123, 789, 345], [456, 12, 678]]
  {
    var rows := [[123, 456], [789, 12], [345, 678]];
    assert Matrix.Rectangular(rows);
    Matrix.TransposeCells(rows);
    Matrix.SameCells(Matrix.Transpose(rows), [[123, 789, 345], [456, 12, 678]]);
  }

  /** The worked example with each row sorted. */
  lemma SortExample(rows: seq<seq<int>>)
    requires rows == [[123, 456], [789, 12], [345, 678]]
    ensures SortEach(rows) == [[123, 456], [12, 789], [345, 678]]
  {
    SortedAs(rows, [[123, 456], [12, 789], [345, 678]]);
  }

  /** Transposing the example and then sorting: `[[123, 345, 789], [12, 456, 678]]`. */
  lemma TransposeThenSort(rows: seq<seq<int>>)
    requires rows == [[123, 789, 345], [456, 12, 678]]
    ensures SortEach(rows) == [[123, 345, 789], [12, 456, 678]]
  {
    var expected := [[123, 345, 789], [12, 456, 678]];
    Elements3(123, 789, 345);
    Elements3(123, 345, 789);
    Elements3(456, 12, 678);
    Elements3(12, 456, 678);
    Ascending3(123, 345, 789);
    Ascending3(12, 456, 678);
    SortedAs(rows, expected);
  }

  /** The elements of a three-element sequence. */
  lemma Elements3(x: int, y: int, z: int)
    ensures multiset([x, y, z]) == multiset{x, y, z}
  {
  }

  lemma Ascending3(x: int, y: int, z: int)
    requires x <= y <= z
    ensures Ascending([x, y, z])
  {
  }

  /** Sorting the example and then transposing: `[[123, 12, 345], [456, 789, 678]]`. */
  lemma SortThenTranspose()
    ensures Matrix.Rectangular([[123, 456], [12, 789], [345, 678]])
    ensures Matrix.Transpose([[123, 456], [12, 789], [345, 678]]) == [[123, 12, 345], [456, 789, 678]]
  {
    var rows := [[123, 456], [12, 789], [345, 678]];
    assert Matrix.Rectangular(rows);
    Matrix.TransposeCells(rows);
    Matrix.SameCells(Matrix.Transpose(rows), [[123, 12, 345], [456, 789, 678]]);
  }

  /** So the order of `transpose` and `sort_arrays` matters. */
  lemma OrderMatters()
    ensures var rows := [[123, 456], [789, 12], [345, 678]];
      Matrix.Rectangular(rows) && Matrix.Rectangular(SortEach(rows)) &&
      SortEach(Matrix.Transpose(rows)) != Matrix.Transpose(SortEach(rows))
  {
    TransposeExample();
    SortExample([[123, 456], [789, 12], [345, 678]]);
    TransposeThenSort([[123, 789, 345], [456, 12, 678]]);
    SortThenTranspose();
    assert [[123, 345, 789], [12, 456, 678]][0][1] != [[123, 12, 345], [456, 789, 678]][0][1];
  }

  /** A sorted order is determined by the elements alone: two ascending
      sequences with the same elements are equal. */
  lemma {:induction false} SortUnique(a: seq<int>, b: seq<int>)
    requires Ascending(a) && Ascending(b) && multiset(a) == multiset(b)
    ensures a == b
  {
    assert |a| == |multiset(a)| == |multiset(b)| == |b|;
    if |a| > 0 {
      SmallestFirst(a, b);
      SmallestFirst(b, a);
      TailOf(a);
      TailOf(b);
      SortUnique(a[1..], b[1..]);
    }
  }

  /** The first element of an ascending sequence is at most any element of
      a sequence with the same elements. */
  lemma SmallestFirst(a: seq<int>, b: seq<int>)
    requires Ascending(b) && multiset(a) == multiset(b) && |a| > 0
    ensures |b| > 0 && b[0] <= a[0]
  {
    assert a[0] in multiset(a);
    assert a[0] in b;
    var j :| 0 <= j < |b| && b[j] == a[0];
  }

  /** Dropping the first element of an ascending sequence keeps it ascending
      and removes one copy of that element. */
  lemma TailOf(a: seq<int>)
    requires Ascending(a) && |a| > 0
    ensures Ascending(a[1..]) && multiset(a[1..]) == multiset(a) - multiset{a[0]}
  {
    assert a == [a[0]] + a[1..];
  }

  /** Rows that are ascending arrangements of the given rows are what `SortEach` yields. */
  lemma SortedAs(rows: seq<seq<int>>, expected: seq<seq<int>>)
    requires |rows| == |expected|
    requires forall i :: 0 <= i < |rows| ==> Ascending(expected[i]) && multiset(expected[i]) == multiset(rows[i])
    ensures SortEach(rows) == expected
  {
    var r := SortEach(rows);
    forall i | 0 <= i < |rows| ensures r[i] == expected[i] {
      SortUnique(r[i], expected[i]);
    }
  }

  // ---------------------------------------------------------------------
  // The AocInput object

  /** What `@data` holds: the raw text, its lines, or rows of integers. */
  datatype Data = Raw(text: string) | LinesOf(lines: seq<string>) | Numbers(rows: seq<seq<int>>)

  /** The keys of the `@can_call` table. */
  datatype Step = ColumnsOfNumbers | MultipleLines | SortArrays | Transpose

  /** The table `configure_method_access` sets up: only `multiple_lines` is allowed. */
  const InitialAccess: map<Step, bool> :=
    map[ColumnsOfNumbers := false, MultipleLines := true, SortArrays := false, Transpose := false]

  class AocInput {
    /** `@raw_input`. */
    const rawInput: string
    /** `@data` (read through `data`, which falls back to the raw input). */
    var data: Data
    /** `@can_call`. */
    var canCall: map<Step, bool>

    /** The flag table has its four keys, and each step it allows finds
        data of the shape it works on. */
    ghost predicate Valid()
      reads this
    {
      ColumnsOfNumbers in canCall && MultipleLines in canCall && SortArrays in canCall && Transpose in canCall &&
      (canCall[ColumnsOfNumbers] ==> data.LinesOf?) &&
      (canCall[Transpose] || canCall[SortArrays] ==> data.Numbers?)
    }

    /** `AocInput.new(puzzle_input)`: the data is the raw input and only
        `multiple_lines` is allowed (`configure_method_access`). */
    constructor (puzzleInput: string)
      ensures Valid() && rawInput == puzzleInput && data == Raw(puzzleInput)
      ensures canCall == InitialAccess
    {
      rawInput := puzzleInput;
      data := Raw(puzzleInput);
      canCall := InitialAccess;
    }

    /** `allow(method_name)`. */
    method Allow(s: Step)
      modifies this
      ensures canCall == old(canCall)[s := true] && data == old(data)
    {
      canCall := canCall[s := true];
    }

    /** `revoke(method_name)`. */
    method Revoke(s: Step)
      modifies this
      ensures canCall == old(canCall)[s := false] && data == old(data)
    {
      canCall := canCall[s := false];
    }

    /** `can_call?(method_name, msg)`: raises `msg` unless the step is allowed. */
    function CanCall(s: Step, msg: string): (o: Outcome)
      reads this
      requires s in canCall
      ensures o == Pass <==> canCall[s]
      ensures o.Fail? ==> o.error == msg
    {
      if canCall[s] then Pass else Fail(msg)
    }

    /** `multiple_lines`: the raw text becomes its lines; `columns_of_numbers`
        is allowed and `multiple_lines` revoked (though never checked). Called
        again, the data is no longer text and `lines` is undefined on it. */
    method MultipleLinesStep() returns (o: Outcome)
      requires Valid()
      modifies this
      ensures Valid()
      ensures old(data).Raw? ==> (o == Pass && data == LinesOf(Text.Lines(old(data).text)) &&
        canCall == old(canCall)[ColumnsOfNumbers := true][MultipleLines := false])
      ensures !old(data).Raw? ==> o == Fail("undefined method 'lines'") && data == old(data) && canCall == old(canCall)
    {
      if !data.Raw? {
        return Fail("undefined method 'lines'");
      }
      data := LinesOf(Text.Lines(data.text));
      Allow(ColumnsOfNumbers);
      Revoke(MultipleLines);
      o := Pass;
    }

    /** `columns_of_numbers(delimiter)`: each line becomes the integers of
        its pieces; `sort_arrays` and `transpose` are allowed and
        `columns_of_numbers` revoked. */
    method ColumnsOfNumbersStep(delimiter: Option<string>) returns (o: Outcome)
      requires Valid()
      modifies this
      ensures Valid()
      ensures o == old(CanCall(ColumnsOfNumbers, "call .multiple_lines first"))
      ensures o.Fail? ==> data == old(data) && canCall == old(canCall)
      ensures o.Pass? ==> (data == Numbers(ColumnsOf(old(data).lines, delimiter)) &&
        canCall == old(canCall)[SortArrays := true][Transpose := true][ColumnsOfNumbers := false])
    {
      o := CanCall(ColumnsOfNumbers, "call .multiple_lines first");
      if o.Fail? {
        return;
      }
      data := Numbers(ColumnsOf(data.lines, delimiter));
      Allow(SortArrays);
      Allow(Transpose);
      Revoke(ColumnsOfNumbers);
    }

    /** `transpose`: rows become columns; ragged rows raise. */
    method TransposeStep() returns (o: Outcome)
      requires Valid()
      modifies this
      ensures Valid() && canCall == old(canCall)
      ensures !old(canCall)[Transpose] ==> o == Fail("call .columns_of_numbers first") && data == old(data)
      ensures old(canCall)[Transpose] && !Matrix.Rectangular(old(data).rows) ==>
        o == Fail("element size differs") && data == old(data)
      ensures old(canCall)[Transpose] && Matrix.Rectangular(old(data).rows) ==>
        o == Pass && data == Numbers(Matrix.Transpose(old(data).rows))
    {
      o := CanCall(Transpose, "call .columns_of_numbers first");
      if o.Fail? {
        return;
      }
      var t := TransposeRows(data.rows);
      if t.Err? {
        return Fail(t.error);
      }
      data := Numbers(t.value);
    }

    /** `sort_arrays`: every row sorted ascending, row order kept. */
    method SortArraysStep() returns (o: Outcome)
      requires Valid()
      modifies this
      ensures Valid() && canCall == old(canCall)
      ensures !old(canCall)[SortArrays] ==> o == Fail("call .columns_of_numbers first") && data == old(data)
      ensures old(canCall)[SortArrays] ==> o == Pass && data == Numbers(SortEach(old(data).rows))
    {
      o := CanCall(SortArrays, "call .columns_of_numbers first");
      if o.Fail? {
        return;
      }
      data := Numbers(SortEach(data.rows));
    }

    /** `to_grid`: a Grid of the characters of the raw input, whatever the data now holds. */
    method ToGrid() returns (g: Grids.Grid<char>)
      requires Matrix.Rectangular(Text.Lines(rawInput))
      ensures fresh(g) && g.Valid() && g.rows == Text.Lines(rawInput)
    {
      g := Grids.FromInput(rawInput);
    }

    /** `sections(delimiter)`: a new AocInput for each piece of the raw input,
        each in the state `AocInput.new` gives it. */
    method Sections(delimiter: string) returns (sections: seq<AocInput>)
      ensures |sections| == |Split(rawInput, Some(delimiter))|
      ensures forall i :: 0 <= i < |sections| ==> (fresh(sections[i]) && sections[i].Valid() &&
        sections[i].rawInput == Split(rawInput, Some(delimiter))[i] &&
        sections[i].data == Raw(Split(rawInput, Some(delimiter))[i]) && sections[i].canCall == InitialAccess)
    {
      var pieces := Split(rawInput, Some(delimiter));
      sections := [];
      var i := 0;
      while i < |pieces|
        invariant 0 <= i <= |pieces| && |sections| == i
        invariant forall j :: 0 <= j < i ==> (fresh(sections[j]) && sections[j].Valid() &&
          sections[j].rawInput == pieces[j] && sections[j].data == Raw(pieces[j]) &&
          sections[j].canCall == InitialAccess)
      {
        var section := new AocInput(pieces[i]);
        sections := sections + [section];
        i := i + 1;
      }
    }
  }

  /** The worked example: three lines of two numbers each. */
  lemma NumbersExample(text: string)
    requires text == "123 456\n789 012\n345 678\n"
    ensures Text.Lines(text) == ["123 456", "789 012", "345 678"]
  {
    var ls := ["123 456", "789 012", "345 678"];
    ExampleText(ls);
    ExamplePlain(ls);
    Text.LinesUnlines(ls);
  }

  /** The lines of the worked example read as columns of numbers:
      `[[123, 456], [789, 12], [345, 678]]`. */
  lemma ColumnsExample(lines: seq<string>)
    requires lines == ["123 456", "789 012", "345 678"]
    ensures ColumnsOf(lines, None) == [[123, 456], [789, 12], [345, 678]]
  {
    var firsts, seconds := ["123", "789", "345"], ["456", "012", "678"];
    PairLine(lines[0], firsts[0], seconds[0]);
    PairLine(lines[1], firsts[1], seconds[1]);
    PairLine(lines[2], firsts[2], seconds[2]);
    PairRows(lines, firsts, seconds);
    var values := [[123, 456], [789, 12], [345, 678]];
    ThreeByTwo(ColumnsOf(lines, None), values, firsts, seconds);
  }

  /** Rows of the values of the given pairs of three-digit pieces are the expected table. */
  lemma ThreeByTwo(rows: seq<seq<int>>, values: seq<seq<int>>, firsts: seq<string>, seconds: seq<string>)
    requires values == [[123, 456], [789, 12], [345, 678]]
    requires firsts == ["123", "789", "345"] && seconds == ["456", "012", "678"]
    requires |rows| == 3
    requires forall i :: 0 <= i < 3 ==> rows[i] == [ThreeDigitValue(firsts[i]), ThreeDigitValue(seconds[i])]
    ensures rows == values
  {
    assert rows[0] == values[0];
    assert rows[1] == values[1];
    assert rows[2] == values[2];
  }

  /** A literal line of the example is its two numbers joined by a space. */
  lemma PairLine(line: string, a: string, b: string)
    requires |line| == 7 && |a| == 3 && |b| == 3
    requires line[..3] == a && line[3] == ' ' && line[4..] == b
    ensures line == a + " " + b
  {
  }

  /** Lines of two three-digit numbers separated by a space become rows of those two numbers. */
  lemma PairRows(lines: seq<string>, firsts: seq<string>, seconds: seq<string>)
    requires |firsts| == |lines| && |seconds| == |lines|
    requires forall i :: 0 <= i < |lines| ==> |firsts[i]| == 3 && |seconds[i]| == 3
    requires forall i, k :: 0 <= i < |lines| && 0 <= k < 3 ==> IsDigit(firsts[i][k]) && IsDigit(seconds[i][k])
    requires forall i :: 0 <= i < |lines| ==> lines[i] == firsts[i] + " " + seconds[i]
    ensures |ColumnsOf(lines, None)| == |lines|
    ensures forall i :: 0 <= i < |lines| ==>
      ColumnsOf(lines, None)[i] == [ThreeDigitValue(firsts[i]), ThreeDigitValue(seconds[i])]
  {
    forall i | 0 <= i < |lines|
      ensures ColumnsOf(lines, None)[i] == [ThreeDigitValue(firsts[i]), ThreeDigitValue(seconds[i])]
    {
      PairRow(lines, i, firsts[i], seconds[i]);
    }
  }

  /** A line of two three-digit numbers separated by a space becomes the row of those two numbers. */
  lemma PairRow(lines: seq<string>, i: nat, a: string, b: string)
    requires i < |lines| && |a| == 3 && |b| == 3 && lines[i] == a + " " + b
    requires forall k :: 0 <= k < 3 ==> IsDigit(a[k]) && IsDigit(b[k])
    ensures ColumnsOf(lines, None)[i] == [ThreeDigitValue(a), ThreeDigitValue(b)]
  {
    var row := ColumnsOf(lines, None)[i];
    NumberPair(lines[i], a, b);
    assert Split(lines[i], None) == [a, b];
    assert |row| == 2 && row[0] == ToI(a) && row[1] == ToI(b);
    ThreeDigits(a);
    ThreeDigits(b);
    assert row == [row[0], row[1]];
  }

  function ThreeDigitValue(s: string): int
    requires |s| == 3 && forall k :: 0 <= k < 3 ==> IsDigit(s[k])
  {
    100 * DigitValue(s[0]) + 10 * DigitValue(s[1]) + DigitValue(s[2])
  }

  /** A line of two words separated by a space splits into those two words. */
  lemma NumberPair(line: string, a: string, b: string)
    requires |a| == 3 && |b| == 3 && line == a + " " + b
    requires forall k :: 0 <= k < 3 ==> IsDigit(a[k]) && IsDigit(b[k])
    ensures Words(line) == [a, b]
  {
    assert Word(a) && Word(b);
    WordsCons(b, "");
    assert b + "" == b;
    WordThenRest(a, b, [b]);
  }

  /** `to_i` of three digits is their decimal value. */
  lemma ThreeDigits(s: string)
    requires |s| == 3 && forall k :: 0 <= k < 3 ==> IsDigit(s[k])
    ensures ToI(s) == ThreeDigitValue(s)
  {
    assert SpaceRun(s) == 0 && s[0..] == s;
    assert s[0] != '-' && s[0] != '+' && Unprefixed(s) == s;
    DigitRunAll(s);
    assert s[..3] == s;
    assert s[..2][..1] == s[..1] && s[..1][..0] == [];
    assert DigitsValue(s[..1]) == DigitValue(s[0]);
    assert DigitsValue(s[..2]) == 10 * DigitValue(s[0]) + DigitValue(s[1]);
  }

  lemma ExampleText(ls: seq<string>)
    requires ls == ["123 456", "789 012", "345 678"]
    ensures Text.Unlines(ls) == "123 456\n789 012\n345 678\n"
  {
    assert Text.Unlines(ls[2..]) == "345 678\n" by {
      assert ls[2..][1..] == [];
    }
    assert Text.Unlines(ls[1..]) == "789 012\n345 678\n" by {
      assert ls[1..][1..] == ls[2..];
    }
  }

  lemma ExamplePlain(ls: seq<string>)
    requires ls == ["123 456", "789 012", "345 678"]
    ensures forall k :: 0 <= k < |ls| ==> Text.PlainLine(ls[k])
  {
  }
}
