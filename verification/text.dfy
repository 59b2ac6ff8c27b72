/** Line splitting as Ruby's `String#lines(chomp: true)` does it with the
    default separator, shared by `Grid.from_input` and `AocInput`. */
module Text {

  /** Drops the `"\r"` that precedes a removed `"\n"`. */
  function ChompCR(line: string): string
  {
    if |line| > 0 && line[|line| - 1] == '\r' then line[..|line| - 1] else line
  }

  /** Index of the first `'\n'` in `s`, or `|s|` when there is none. */
  function NewlineIndex(s: string): (i: nat)
    ensures i <= |s|
    ensures forall k :: 0 <= k < i ==> s[k] != '\n'
    ensures i < |s| ==> s[i] == '\n'
  {
    if |s| == 0 then 0
    else if s[0] == '\n' then 0
    else 1 + NewlineIndex(s[1..])
  }

  /** `String#lines(chomp: true)`: the text is cut after every `"\n"`; each
      piece loses that `"\n"` and a `"\r"` right before it. A final piece
      without `"\n"` is kept unchanged, and a trailing `"\n"` does not start
      an extra empty line. */
  function Lines(s: string): (ls: seq<string>)
    decreases |s|
  {
    if |s| == 0 then []
    else
      var i := NewlineIndex(s);
      if i == |s| then [s]
      else [ChompCR(s[..i])] + Lines(s[i + 1..])
  }

  /** No line holds a line break, and there are no more lines than characters. */
  lemma {:induction false} LinesHaveNoNewline(s: string)
    ensures |Lines(s)| <= |s|
    ensures forall k, c :: 0 <= k < |Lines(s)| && 0 <= c < |Lines(s)[k]| ==> Lines(s)[k][c] != '\n'
    decreases |s|
  {
    if |s| > 0 {
      var i := NewlineIndex(s);
      if i < |s| {
        LinesHaveNoNewline(s[i + 1..]);
        assert Lines(s) == [ChompCR(s[..i])] + Lines(s[i + 1..]);
      }
    }
  }

  /** The text a sequence of lines came from when every line ended in `"\n"`. */
  function Unlines(ls: seq<string>): (s: string)
    ensures |s| >= |ls|
  {
    if |ls| == 0 then [] else ls[0] + "\n" + Unlines(ls[1..])
  }

  /** A line that `Lines` gives back unchanged: no line break inside and no
      `"\r"` at its end. */
  ghost predicate PlainLine(l: string)
  {
    (forall c :: 0 <= c < |l| ==> l[c] != '\n') && (|l| > 0 ==> l[|l| - 1] != '\r')
  }

  /** Splitting undoes joining: cutting the newline-terminated text of plain
      lines gives those lines back. */
  lemma {:induction false} LinesUnlines(ls: seq<string>)
    requires forall k :: 0 <= k < |ls| ==> PlainLine(ls[k])
    ensures Lines(Unlines(ls)) == ls
  {
    if |ls| > 0 {
      var s := Unlines(ls);
      var l := ls[0];
      assert s == l + "\n" + Unlines(ls[1..]);
      NewlineAfter(l, Unlines(ls[1..]));
      assert s[..|l|] == l;
      assert s[|l| + 1..] == Unlines(ls[1..]);
      LinesUnlines(ls[1..]);
    }
  }

  /** In `l + "\n" + rest` with a line-break-free `l`, the first line break ends `l`. */
  lemma {:induction false} NewlineAfter(l: string, rest: string)
    requires forall c :: 0 <= c < |l| ==> l[c] != '\n'
    ensures NewlineIndex(l + "\n" + rest) == |l|
  {
    if |l| > 0 {
      assert (l + "\n" + rest)[1..] == l[1..] + "\n" + rest;
      NewlineAfter(l[1..], rest);
    }
  }
}
