/** Joining lines with a separator (`str.join`) and splitting text at it (`str.split`). */
module TextLines {

  /** `sep.join(lines)`: the lines with one separator between neighbours. */
  function Join(lines: seq<string>, sep: char): string
  {
    if |lines| == 0 then ""
    else if |lines| == 1 then lines[0]
    else lines[0] + [sep] + Join(lines[1..], sep)
  }

  /** `text.split(sep)`: the pieces between separators; never empty. */
  function Split(text: string, sep: char): (pieces: seq<string>)
    ensures |pieces| >= 1
  {
    if text == [] then [""]
    else
      var rest := Split(text[1..], sep);
      if text[0] == sep then [""] + rest else [[text[0]] + rest[0]] + rest[1..]
  }

  /** Splitting text that starts with a separator-free piece yields that piece glued to the first piece of the rest. */
  lemma {:induction false} SplitAfterPiece(piece: string, rest: string, sep: char)
    requires sep !in piece
    ensures Split(piece + rest, sep) == [piece + Split(rest, sep)[0]] + Split(rest, sep)[1..]
  {
    if piece == [] {
      var pieces := Split(rest, sep);
      assert piece + rest == rest;
      assert piece + pieces[0] == pieces[0];
      assert pieces == [pieces[0]] + pieces[1..];
    } else {
      assert (piece + rest)[1..] == piece[1..] + rest;
      SplitAfterPiece(piece[1..], rest, sep);
      assert [piece[0]] + (piece[1..] + Split(rest, sep)[0]) == piece + Split(rest, sep)[0];
    }
  }

  /** Splitting the join of separator-free lines gives the lines back. */
  lemma {:induction false} SplitJoin(lines: seq<string>, sep: char)
    requires |lines| >= 1
    requires forall i :: 0 <= i < |lines| ==> sep !in lines[i]
    ensures Split(Join(lines, sep), sep) == lines
  {
    if |lines| == 1 {
      SplitAfterPiece(lines[0], "", sep);
      assert lines[0] + "" == lines[0];
    } else {
      SplitJoin(lines[1..], sep);
      assert lines[0] + [sep] + Join(lines[1..], sep) == lines[0] + ([sep] + Join(lines[1..], sep));
      SplitAfterPiece(lines[0], [sep] + Join(lines[1..], sep), sep);
      assert ([sep] + Join(lines[1..], sep))[1..] == Join(lines[1..], sep);
      assert lines[0] + "" == lines[0];
      assert lines == [lines[0]] + lines[1..];
    }
  }
}
