/** Text on the display: word wrap, padding and truncation. Texts are byte strings,
    written as characters. */
module CfaText {
  import opened Numbers

  const SPACE := ' '

  /** Index of the last space, or -1. */
  function LastSpace(s: string): (i: int)
    ensures -1 <= i < |s|
    ensures i >= 0 ==> s[i] == SPACE
    ensures forall k | i < k < |s| :: s[k] != SPACE
  {
    if s == [] then -1
    else if s[|s| - 1] == SPACE then |s| - 1
    else LastSpace(s[..|s| - 1])
  }

  function TrimLeft(s: string): string {
    if s != [] && s[0] == SPACE then TrimLeft(s[1..]) else s
  }

  lemma {:induction false} TrimLeftMeaning(s: string)
    ensures var t := TrimLeft(s);
            && |t| <= |s| && t == s[|s| - |t|..] && (t != [] ==> t[0] != SPACE)
            && forall k | 0 <= k < |s| - |t| :: s[k] == SPACE
  {
    if s == [] || s[0] != SPACE {
    } else {
      TrimLeftMeaning(s[1..]);
      var t := TrimLeft(s);
      assert forall k | 1 <= k < |s| - |t| :: s[k] == s[1..][k - 1];
    }
  }

  /** A space at or before `width`; the bound of the search is computed in a byte. */
  function WrapPos(msg: string, width: nat): nat
    requires width < 256
  {
    if |msg| <= width then |msg|
    else
      var i := LastSpace(msg[..(width + 1) % 256]);
      if i < 0 then 0 else i
  }

  /** Where the next line ends. */
  function Cut(msg: string, width: nat): nat
    requires width < 256
  {
    var next := WrapPos(msg, width);
    if next == 0 then Min(|msg|, width) else next
  }

  /** A text that is too long is cut at the last space in positions 1 to `width`, and
      within a word exactly when there is none there, or the width is 255. */
  lemma CutMeaning(msg: string, width: nat)
    requires width < 256
    ensures |msg| <= width ==> Cut(msg, width) == |msg|
    ensures |msg| > width ==>
              var cut := Cut(msg, width);
              if width < 255 && exists k :: 1 <= k <= width && msg[k] == SPACE
              then 1 <= cut <= width && msg[cut] == SPACE && forall k | cut < k <= width :: msg[k] != SPACE
              else cut == width
  {
    if |msg| > width {
      if width == 255 {
        assert msg[..0] == [];
      } else {
        var head := msg[..width + 1];
        assert forall k | 0 <= k <= width :: head[k] == msg[k];
      }
    }
  }

  /** The lines of a text, at most `row + 1` of them. */
  function FitLines(msg: string, width: nat, row: int): seq<string>
    requires width < 256 && row >= -1
    decreases row
  {
    if msg == [] || row < 0 then []
    else
      CutMeaning(msg, width);
      var cut := Cut(msg, width);
      [msg[..cut]] + FitLines(TrimLeft(msg[cut..]), width, row - 1)
  }

  lemma FitNext(msg: string, width: nat, row: int)
    requires width < 256 && row >= 0 && msg != []
    ensures var cut := Cut(msg, width);
            && cut <= |msg| && (width > 0 ==> 0 < cut <= width)
            && FitLines(msg, width, row) == [msg[..cut]] + FitLines(TrimLeft(msg[cut..]), width, row - 1)
  {
    hide Cut, TrimLeft;
    CutMeaning(msg, width);
  }

  method Fit(msg: string, width: nat, row: nat) returns (lines: seq<string>)
    requires width < 256 && row < 256
    ensures lines == FitLines(msg, width, row)
  {
    hide WrapPos, TrimLeft, FitLines;
    lines := [];
    var rest := msg;
    while |rest| > 0
      invariant |lines| <= row
      invariant lines + FitLines(rest, width, row - |lines|) == FitLines(msg, width, row)
      decreases row - |lines|
    {
      FitNext(rest, width, row - |lines|);
      var nextWrap := WrapPos(rest, width);
      if nextWrap == 0 {
        nextWrap := Min(|rest|, width);
      }
      ghost var after := FitLines(TrimLeft(rest[nextWrap..]), width, row - |lines| - 1);
      assert lines + ([rest[..nextWrap]] + after) == lines + [rest[..nextWrap]] + after;
      lines := lines + [rest[..nextWrap]];
      rest := TrimLeft(rest[nextWrap..]);
      if |lines| > row {
        break;
      }
    }
    NoLines(rest, width, row - |lines|);
  }

  lemma NoLines(rest: string, width: nat, row: int)
    requires width < 256 && row >= -1 && (rest == [] || row == -1)
    ensures FitLines(rest, width, row) == []
  {
  }

  function NonSpace(s: string): string {
    if s == [] then []
    else NonSpace(s[..|s| - 1]) + (if s[|s| - 1] == SPACE then [] else [s[|s| - 1]])
  }

  function Concat(lines: seq<string>): string {
    if lines == [] then [] else lines[0] + Concat(lines[1..])
  }

  lemma NonSpaceNothing()
    ensures NonSpace([]) == [] && Concat([]) == []
  {
  }

  lemma {:induction false} NonSpaceSplit(a: string, b: string)
    ensures NonSpace(a + b) == NonSpace(a) + NonSpace(b)
    decreases |b|
  {
    if b == [] {
      assert a + b == a;
    } else {
      assert (a + b)[..|a + b| - 1] == a + b[..|b| - 1];
      NonSpaceSplit(a, b[..|b| - 1]);
    }
  }

  lemma {:induction false} NonSpaceOfSpaces(s: string)
    requires forall k | 0 <= k < |s| :: s[k] == SPACE
    ensures NonSpace(s) == []
    decreases |s|
  {
    if s == [] {
    } else {
      NonSpaceOfSpaces(s[..|s| - 1]);
    }
  }

  lemma TrimKeepsText(s: string)
    ensures NonSpace(TrimLeft(s)) == NonSpace(s)
  {
    TrimLeftMeaning(s);
    var t := TrimLeft(s);
    var spaces := s[..|s| - |t|];
    assert s == spaces + t;
    NonSpaceSplit(spaces, t);
    NonSpaceOfSpaces(spaces);
  }

  lemma FirstLineText(first: string, rest: string, lines: seq<string>)
    ensures NonSpace(Concat([first] + lines)) == NonSpace(first) + NonSpace(Concat(lines))
    ensures NonSpace(first + rest) == NonSpace(first) + NonSpace(TrimLeft(rest))
  {
    hide NonSpace, TrimLeft;
    assert ([first] + lines)[1..] == lines;
    NonSpaceSplit(first, Concat(lines));
    NonSpaceSplit(first, rest);
    TrimKeepsText(rest);
  }

  /** Lines are never empty nor longer than the width, and carry the text of the message
      in order: all of it unless the row limit stopped them. */
  lemma {:induction false} FitKeepsText(msg: string, width: nat, row: int)
    requires 0 < width < 256 && row >= -1
    ensures var lines := FitLines(msg, width, row);
            && |lines| <= row + 1
            && (forall line <- lines :: 0 < |line| <= width)
            && NonSpace(Concat(lines)) <= NonSpace(msg)
            && (|lines| <= row ==> NonSpace(Concat(lines)) == NonSpace(msg))
    decreases row
  {
    hide Cut, TrimLeft, NonSpace, FitLines, Concat;
    if msg == [] || row < 0 {
      NoLines(msg, width, row);
      NonSpaceNothing();
    } else {
      FitNext(msg, width, row);
      var cut := Cut(msg, width);
      var rest := TrimLeft(msg[cut..]);
      FitKeepsText(rest, width, row - 1);
      assert msg == msg[..cut] + msg[cut..];
      FirstLineText(msg[..cut], msg[cut..], FitLines(rest, width, row - 1));
    }
  }

  /** No line but the first starts with a space. */
  lemma {:induction false} FitTrims(msg: string, width: nat, row: int)
    requires 0 < width < 256 && row >= -1
    ensures var lines := FitLines(msg, width, row);
            && (lines != [] ==> lines[0] != [] && lines[0][0] == msg[0])
            && forall k | 0 < k < |lines| :: lines[k] != [] && lines[k][0] != ' '
    decreases row
  {
    hide Cut, TrimLeft, FitLines;
    if msg == [] || row < 0 {
      NoLines(msg, width, row);
    } else {
      FitNext(msg, width, row);
      var rest := TrimLeft(msg[Cut(msg, width)..]);
      TrimLeftMeaning(msg[Cut(msg, width)..]);
      FitTrims(rest, width, row - 1);
      if rest == [] {
        NoLines(rest, width, row - 1);
      }
    }
  }

  /** Without any width there are only empty lines. */
  lemma {:induction false} FitWithoutWidth(msg: string, row: int)
    requires row >= -1
    ensures |FitLines(msg, 0, row)| <= row + 1
    ensures forall line <- FitLines(msg, 0, row) :: line == []
    decreases row
  {
    if msg == [] || row < 0 {
    } else {
      CutMeaning(msg, 0);
      FitWithoutWidth(TrimLeft(msg[Cut(msg, 0)..]), row - 1);
    }
  }

  // ---------------------------------------------------------------- fixed width

  function Spaces(n: nat): string { seq(n, _ => SPACE) }

  function Pad(line: string, w: nat): string { line + Spaces(if |line| < w then w - |line| else 0) }

  function Truncate(s: string, max: nat): string { if |s| <= max then s else s[..max] }

  function Padcate(s: string, w: nat): string { Pad(Truncate(s, w), w) }

  lemma PadcateWidth(s: string, w: nat)
    ensures |Padcate(s, w)| == w
  {
  }

  /** The text from the left, spaces after it, and what is too long cut off. */
  lemma PadcateShows(s: string, w: nat)
    ensures |Padcate(s, w)| == w
    ensures forall i | 0 <= i < w :: Padcate(s, w)[i] == if i < |s| then s[i] else ' '
  {
    PadcateWidth(s, w);
  }

  /** A text that wraps to one line shows as if it had not been wrapped. */
  lemma OneLineShows(msg: string, width: nat, row: nat)
    requires width < 256 && row > 0 && |FitLines(msg, width, row)| <= 1
    ensures var lines := FitLines(msg, width, row);
            Padcate(if lines == [] then [] else lines[0], width) == Padcate(msg, width)
  {
    if msg != [] && |msg| > width {
      CutMeaning(msg, width);
      var cut := Cut(msg, width);
      var rest := TrimLeft(msg[cut..]);
      assert FitLines(rest, width, row - 1) == [];
      assert rest == [];
      TrimLeftMeaning(msg[cut..]);
      assert forall k | 0 <= k < |msg| - cut :: msg[cut..][k] == SPACE;
      assert Padcate(msg[..cut], width) == msg[..width];
    } else {
      CutMeaning(msg, width);
    }
  }
}
