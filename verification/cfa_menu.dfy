/** The incremental menu: it redraws what changed, and always looks like a full redraw. */
module CfaMenu {
  import opened CfaText
  import opened Numbers
  import CfaPacket

  datatype KeyActivity =
    | NO_KEY
    | UP_PRESS | DOWN_PRESS | LEFT_PRESS | RIGHT_PRESS | ENTER_PRESS | EXIT_PRESS
    | UP_RELEASE | DOWN_RELEASE | LEFT_RELEASE | RIGHT_RELEASE | ENTER_RELEASE | EXIT_RELEASE
    | UL_PRESS | UR_PRESS | LL_PRESS | LR_PRESS
    | UL_RELEASE | UR_RELEASE | LL_RELEASE | LR_RELEASE

  datatype Legend = Legend_VDX | LegendUVDX | LegendUV_X

  const CHOICE_NONE := -1
  const CHOICE_CANCEL := -2
  const OFF_SCREEN := 255

  /** The longest text of one command: two bytes of its data say where the text goes. */
  const TEXT_LIMIT := CfaPacket.MAX_DATA_LENGTH - 2

  // ---------------------------------------------------------------- display

  /** `txt` written over a row from `col` on. */
  function Overwrite(row: string, col: nat, txt: string): string
    requires col + |txt| <= |row|
  {
    seq(|row|, i requires 0 <= i < |row| => if col <= i < col + |txt| then txt[i - col] else row[i])
  }

  lemma OverwriteAll(row: string, txt: string)
    requires |row| == |txt|
    ensures Overwrite(row, 0, txt) == txt
  {
  }

  class Lcd {
    const width: nat
    const lastCol: nat
    const lastRow: nat
    const screen: array<string>
    var cursor: nat
    var legend: Legend

    constructor (lastCol: nat, lastRow: nat, legendWidth: nat)
      requires lastCol + TEXT_LIMIT < 256 && lastRow < OFF_SCREEN && legendWidth <= lastCol
      ensures Valid() && width == lastCol - legendWidth + 1 && this.lastRow == lastRow
      ensures legend == Legend_VDX && fresh(screen)
    {
      this.lastCol, this.lastRow := lastCol, lastRow;
      var w := lastCol - legendWidth + 1;
      width := w;
      screen := new string[lastRow + 1](_ => Spaces(w));
      cursor, legend := 0, Legend_VDX;
    }

    ghost predicate Valid()
      reads screen
    {
      && screen.Length == lastRow + 1 && 0 < width <= lastCol + 1 && lastCol + TEXT_LIMIT < 256 && lastRow < OFF_SCREEN
      && forall r | 0 <= r < screen.Length :: |screen[r]| == width
    }

    /** Row and column are bytes, and the check of the width is made in bytes. */
    method Write(row: nat, col: nat, txt: string) returns (ok: bool)
      requires Valid() && row < 256 && col < 256
      modifies screen
      ensures Valid()
      ensures ok <==> |txt| <= TEXT_LIMIT && |txt| + col <= width && col <= lastCol && row <= lastRow
      ensures forall r | 0 <= r <= lastRow ::
                screen[r] == if ok && r == row then Overwrite(old(screen[r]), col, txt) else old(screen[r])
    {
      if (|txt| % 256 + col) % 256 > width || col > lastCol || row > lastRow {
        return false;
      }
      if |txt| + 2 > CfaPacket.MAX_DATA_LENGTH {
        return false;
      }
      screen[row] := Overwrite(screen[row], col, txt);
      ok := true;
    }

    /** Each line of a window of this place and width can be written. */
    predicate Takes(col: nat, cols: nat) { cols <= TEXT_LIMIT && cols + col <= width && col <= lastCol }

    /** Writes the window of rows `row` to `row + rows` from `col` on, blanking what no line
        fills. The last row is computed in a byte; a window for which it wraps has no rows. */
    method WriteWindow(row: nat, col: nat, rows: nat, cols: nat, lines: seq<string>) returns (ok: bool)
      requires Valid() && row < 256 && rows < 256 && col < 256 && cols < 256
      modifies screen
      ensures Valid()
      ensures var last := (row + rows) % 256;
              && (ok <==> row > last || (Takes(col, cols) && last <= lastRow))
              && forall r | 0 <= r <= lastRow ::
                   screen[r] == if Takes(col, cols) && row <= r <= last
                                then Overwrite(old(screen[r]), col, Shown(lines, r - row, cols))
                                else old(screen[r])
    {
      hide Overwrite, Padcate;
      var last := (row + rows) % 256;
      var idx := 0;
      var r := row;
      while r <= last
        invariant Valid() && row <= r && idx == r - row && (idx > 0 ==> r <= last + 1)
        invariant idx > 0 ==> Takes(col, cols) && r <= lastRow + 1
        invariant forall k | 0 <= k <= lastRow ::
                    screen[k] == if row <= k < r then Overwrite(old(screen[k]), col, Shown(lines, k - row, cols))
                                 else old(screen[k])
      {
        var line := if idx < |lines| then lines[idx] else "";
        var sized := Padcate(line, cols);
        PadcateWidth(line, cols);
        var written := Write(r, col, sized);
        if !written {
          return false;
        }
        idx, r := idx + 1, r + 1;
      }
      ok := true;
    }
  }

  /** The text shown on a line of a window. */
  function Shown(lines: seq<string>, k: nat, cols: nat): (s: string)
    ensures |s| == cols
  {
    PadcateWidth(if k < |lines| then lines[k] else "", cols);
    Padcate(if k < |lines| then lines[k] else "", cols)
  }

  // ---------------------------------------------------------------- items

  /** An item that fits on its line. */
  class NoScroller {
    const l: Lcd
    const txt: seq<string>
    const cols: nat
    var start: nat
    var lastPos: nat

    constructor (l: Lcd, txt: seq<string>, cols: nat)
      ensures this.l == l && this.txt == txt && this.cols == cols
    {
      this.l, this.txt, this.cols := l, txt, cols;
      start, lastPos := 0, OFF_SCREEN;
    }

    method Move(row: nat)
      modifies this`start
      ensures start == row
    {
      start := row;
    }

    /** Draws the text on its row, unless it is there already and need not be. */
    method Draw(force: bool) returns (changed: bool)
      requires l.Valid() && cols == l.width <= TEXT_LIMIT && start <= l.lastRow
      modifies this`lastPos, l.screen
      ensures l.Valid() && (changed <==> force || start != old(lastPos))
      ensures forall r | 0 <= r <= l.lastRow ::
                l.screen[r] == if changed && r == start then Shown(txt, 0, cols) else old(l.screen[r])
      ensures lastPos == start
    {
      hide Overwrite, Shown;
      if !force && lastPos == start {
        return false;
      }
      OverwriteAll(l.screen[start], Shown(txt, 0, cols));
      var written := l.WriteWindow(start, 0, 0, cols, txt);
      lastPos := start;
      changed := true;
    }
  }

  // ---------------------------------------------------------------- navigation

  /** The item on the first row and the selected item. */
  datatype Pos = Pos(first: nat, selected: nat)

  predicate IsUp(k: KeyActivity) { k == UL_RELEASE || k == UP_RELEASE }
  predicate IsDown(k: KeyActivity) { k == LL_RELEASE || k == DOWN_RELEASE }
  predicate IsEnter(k: KeyActivity) { k == UR_RELEASE || k == ENTER_RELEASE }
  predicate IsExit(k: KeyActivity) { k == LR_RELEASE || k == EXIT_RELEASE }

  lemma OneMeaning(k: KeyActivity)
    ensures IsUp(k) ==> !IsDown(k) && !IsEnter(k) && !IsExit(k)
    ensures IsDown(k) ==> !IsEnter(k) && !IsExit(k)
    ensures IsEnter(k) ==> !IsExit(k)
  {
  }

  /** Where a key leads in a menu whose last item is `max` on a screen whose last row is `height`. */
  function Next(p: Pos, k: KeyActivity, max: int, height: nat): Pos {
    if IsUp(k) && p.selected > 0 then
      var s := p.selected - 1;
      Pos(if s < p.first then s else p.first, s)
    else if IsDown(k) && p.selected < max then
      var s := p.selected + 1;
      Pos(if p.first + height < s then p.first + 1 else p.first, s)
    else p
  }

  /** Each of two keys moves the selection up by one, each of two others down; it stops at the
      ends, and the screen scrolls only if the selection would leave it. */
  lemma KeysMove(p: Pos, max: int, height: nat)
    requires OnScreen(p, max, height)
    ensures Next(p, UP_RELEASE, max, height) == Next(p, UL_RELEASE, max, height)
         == Scrolled(p.first, if p.selected == 0 then 0 else p.selected - 1, height)
    ensures Next(p, DOWN_RELEASE, max, height) == Next(p, LL_RELEASE, max, height)
         == Scrolled(p.first, if p.selected < max then p.selected + 1 else p.selected, height)
    ensures forall k | k !in [UP_RELEASE, UL_RELEASE, DOWN_RELEASE, LL_RELEASE] :: Next(p, k, max, height) == p
  {
  }

  predicate OnRows(first: nat, selected: nat, height: nat) { first <= selected <= first + height }

  /** The position with this selection that is nearest to the screen as it was. */
  function Scrolled(first: nat, selected: nat, height: nat): (p: Pos)
    ensures p.selected == selected && OnRows(p.first, selected, height)
    ensures OnRows(first, selected, height) ==> p.first == first
    ensures forall f: nat | OnRows(f, selected, height) :: Abs(p.first - first) <= Abs(f - first)
  {
    Pos(if selected < first then selected else if first + height < selected then selected - height else first, selected)
  }

  function After(keys: seq<KeyActivity>, max: int, height: nat): Pos {
    if keys == [] then Pos(0, 0)
    else Next(After(keys[..|keys| - 1], max, height), keys[|keys| - 1], max, height)
  }

  /** The selection is an item on the screen, and no row is left without an item that there is. */
  ghost predicate OnScreen(p: Pos, max: int, height: nat) {
    && p.first <= p.selected <= p.first + height
    && (if max >= 0 then p.selected <= max else p.selected == 0)
    && (p.first > 0 ==> p.first + height <= max)
  }

  lemma {:induction false} AlwaysOnScreen(keys: seq<KeyActivity>, max: int, height: nat)
    requires max >= -1
    ensures OnScreen(After(keys, max, height), max, height)
    decreases |keys|
  {
    if keys == [] {
    } else {
      AlwaysOnScreen(keys[..|keys| - 1], max, height);
    }
  }

  /** What a full redraw puts on a row; a row without an item keeps what it shows. */
  function RowText(items: seq<seq<string>>, first: nat, r: nat, was: string, cols: nat): string {
    if first + r < |items| then Shown(items[first + r], 0, cols) else was
  }

  // ---------------------------------------------------------------- menu

  class Menu {
    const l: Lcd
    const items: seq<NoScroller>
    const max: int
    const height: nat
    var first: nat
    var selected: nat
    var choice: int
    var overflow: bool
    var redrawLines: bool
    var redrawCursor: bool
    ghost const blank: seq<string>

    /** The items must fit, that is, wrap to at most one line. */
    constructor (l: Lcd, texts: seq<string>)
      requires l.Valid() && l.width <= TEXT_LIMIT && forall t <- texts :: |FitLines(t, l.width, 255)| <= 1
      ensures Valid() && Pending() && this.l == l
      ensures Items() == seq(|texts|, i requires 0 <= i < |texts| => FitLines(texts[i], l.width, 255))
      ensures l.legend == Legend_VDX ==> LegendRight()
      ensures first == selected == 0 && choice == CHOICE_NONE && redrawLines && redrawCursor && blank == l.screen[..]
      ensures fresh(items)
    {
      this.l := l;
      max, height := |texts| - 1, l.lastRow;
      first, selected, choice, overflow := 0, 0, CHOICE_NONE, false;
      redrawLines, redrawCursor := true, true;
      blank := l.screen[..];
      var made: seq<NoScroller> := [];
      for i := 0 to |texts|
        invariant |made| == i && fresh(made)
        invariant forall k | 0 <= k < i :: made[k].l == l && made[k].cols == l.width
                                           && made[k].txt == FitLines(texts[k], l.width, 255)
      {
        var lines := Fit(texts[i], l.width, 255);
        var b := new NoScroller(l, lines, l.width);
        made := made + [b];
      }
      items := made;
    }

    /** What never changes. */
    ghost predicate Built()
      reads l.screen
    {
      && l.Valid() && l.width <= TEXT_LIMIT && height == l.lastRow && max == |items| - 1 && |blank| == height + 1
      && forall b <- items :: b.l == l && b.cols == l.width
    }

    ghost predicate Valid()
      reads this`first, this`selected, this`overflow, l.screen
    {
      Built() && !overflow && OnScreen(Pos(first, selected), max, height)
    }

    /** The lines of each item. */
    function Items(): seq<seq<string>> { seq(|items|, i requires 0 <= i < |items| => items[i].txt) }

    /** The screen is that of a full redraw. */
    ghost predicate Redrawn()
      reads this`first, l.screen
    {
      forall r | 0 <= r < l.screen.Length ::
        r < |blank| && l.screen[r] == RowText(Items(), first, r, blank[r], l.width)
    }

    /** The screen shows the current items, and the cursor marks the selected one. */
    ghost predicate UpToDate()
      reads this`first, this`selected, l`cursor, l.screen
    {
      Redrawn() && l.cursor == selected - first
    }

    /** Rows for which there are no items keep what they showed at first. */
    ghost predicate BlankBelow()
      reads l.screen
    {
      forall r | |items| <= r < l.screen.Length :: r < |blank| && l.screen[r] == blank[r]
    }

    /** The legend offers the directions in which the selection can move. */
    ghost predicate LegendRight()
      reads this`selected, l`legend
    {
      l.legend == LegendAt(selected, max)
    }

    /** Whatever is not up to date is marked for redrawing. */
    ghost predicate Pending()
      reads this`first, this`selected, this`redrawLines, this`redrawCursor, l`cursor, l.screen
    {
      && BlankBelow()
      && (!redrawLines ==> Redrawn())
      && (!redrawCursor ==> l.cursor == selected - first)
    }

    /** Draws an item on each line that has one. */
    method DrawLines()
      requires Valid() && BlankBelow() && (!redrawLines ==> Redrawn())
      modifies l.screen, items
      ensures Valid() && Redrawn()
    {
      hide Shown;
      for dispLine := 0 to l.lastRow + 1
        invariant Valid() && BlankBelow()
        invariant forall r | 0 <= r < (if redrawLines then dispLine else l.lastRow + 1) ::
                    l.screen[r] == RowText(Items(), first, r, blank[r], l.width)
      {
        var idx := first + dispLine;
        if idx >= |items| {
          continue;
        }
        if !redrawLines {
          continue;
        }
        items[idx].Move(dispLine);
        var changed := items[idx].Draw(redrawLines);
      }
    }

    method ResetOffscreen()
      requires Valid()
      modifies items
      ensures Valid()
    {
      for i := 0 to |items|
        invariant Valid()
      {
        if i < first || i > first + height {
          items[i].Move(OFF_SCREEN);
        }
      }
    }

    method Draw()
      requires Valid() && Pending()
      modifies l`cursor, l.screen, items
      ensures Valid() && UpToDate()
    {
      if !redrawLines && !overflow && !redrawCursor {
        return;
      }
      DrawLines();
      if redrawCursor {
        l.cursor := selected - first;
      }
      ResetOffscreen();
    }

    lemma UpToDateIsBlankBelow()
      requires Valid() && UpToDate()
      ensures BlankBelow()
    {
      forall r | |items| <= r < l.screen.Length
        ensures l.screen[r] == blank[r]
      {
        assert l.screen[r] == RowText(Items(), first, r, blank[r], l.width);
      }
    }

    method Up()
      requires Valid() && UpToDate() && !redrawLines && !redrawCursor
      modifies this`first, this`selected, this`redrawLines, this`redrawCursor, l`legend
      ensures Valid() && Pending() && (old(LegendRight()) ==> LegendRight())
      ensures Pos(first, selected) == if old(selected) == 0 then old(Pos(first, selected))
                                      else Pos(Min(old(first), old(selected) - 1), old(selected) - 1)
    {
      UpToDateIsBlankBelow();
      if selected > 0 {
        selected := selected - 1;
        if selected < first {
          first := first - 1;
          redrawLines := true;
        } else {
          redrawCursor := true;
        }
        l.legend := if selected == 0 then Legend_VDX else LegendUVDX;
      }
    }

    method Down()
      requires Valid() && UpToDate() && !redrawLines && !redrawCursor
      modifies this`first, this`selected, this`redrawLines, this`redrawCursor, l`legend
      ensures Valid() && Pending() && (old(LegendRight()) ==> LegendRight())
      ensures Pos(first, selected) ==
              if old(selected) >= max then old(Pos(first, selected))
              else Pos(if old(first) + height <= old(selected) then old(first) + 1 else old(first), old(selected) + 1)
    {
      UpToDateIsBlankBelow();
      if selected < max {
        selected := selected + 1;
        if first + height < selected {
          first := first + 1;
          redrawLines := true;
        } else {
          redrawCursor := true;
        }
        l.legend := if selected == max then LegendUV_X else LegendUVDX;
      }
    }

    method Update(k: KeyActivity)
      requires Valid() && UpToDate()
      modifies this`first, this`selected, this`choice, this`redrawLines, this`redrawCursor, l`legend
      ensures Valid() && Pending() && (old(LegendRight()) ==> LegendRight())
      ensures Pos(first, selected) == Next(old(Pos(first, selected)), k, max, height)
      ensures choice == if IsEnter(k) then selected else if IsExit(k) then CHOICE_CANCEL else old(choice)
    {
      hide OnScreen, Redrawn, BlankBelow, Built, IsUp, IsDown, IsEnter, IsExit;
      OneMeaning(k);
      redrawLines, redrawCursor := false, false;
      UpToDateIsBlankBelow();
      if IsUp(k) {
        Up();
      } else if IsDown(k) {
        Down();
      } else if IsEnter(k) {
        choice := selected;
      } else if IsExit(k) {
        choice := CHOICE_CANCEL;
      }
    }

    /** One turn of the loop: draw, then handle a key. */
    method Cycle(key: KeyActivity, ghost before: seq<KeyActivity>) returns (ghost frame: Frame)
      requires Valid() && Pending() && LegendRight() && Pos(first, selected) == After(before, max, height)
      modifies this, l`cursor, l`legend, l.screen, items
      ensures Valid() && Pending() && LegendRight()
      ensures frame == FrameAt(Items(), before, max, height, blank, l.width)
      ensures Pos(first, selected) == After(before + [key], max, height)
      ensures choice == if IsEnter(key) then After(before, max, height).selected
                        else if IsExit(key) then CHOICE_CANCEL else old(choice)
    {
      hide OnScreen, RowText, BlankBelow, Built, Redrawn, FrameAt;
      Draw();
      frame := Frame(l.screen[..], l.cursor, l.legend);
      FrameShown(before);
      assert (before + [key])[..|before|] == before;
      OneMeaning(key);
      Update(key);
    }

    /** Draws and handles keys until one chooses, or until they run out and the menu times out. */
    method Run(keys: seq<KeyActivity>) returns (result: int, ghost frames: seq<Frame>)
      requires Valid() && Pending() && LegendRight() && choice == CHOICE_NONE && first == selected == 0
      modifies this, l`cursor, l`legend, l.screen, items
      ensures Valid()
      ensures result == Choose(keys, max, height)
      ensures |frames| == if result == CHOICE_NONE then |keys| else Deciding(keys) + 1
      ensures forall k | 0 <= k < |frames| :: frames[k] == FrameAt(Items(), keys[..k], max, height, blank, l.width)
    {
      hide Valid, Pending, FrameAt, Next, IsEnter, IsExit;
      frames := [];
      var k := 0;
      while choice == CHOICE_NONE
        invariant 0 <= k <= |keys| && |frames| == k && Valid() && Pending() && LegendRight()
        invariant Pos(first, selected) == After(keys[..k], max, height)
        invariant forall j | 0 <= j < k :: frames[j] == FrameAt(Items(), keys[..j], max, height, blank, l.width)
        invariant choice == CHOICE_NONE ==> forall j | 0 <= j < k :: !Decides(keys[j])
        invariant choice != CHOICE_NONE ==> k > 0 && Deciding(keys) == k - 1 && choice == Choose(keys, max, height)
        decreases |keys| - k
      {
        if k == |keys| {
          DecidingFirst(keys, k);
          return CHOICE_NONE, frames;
        }
        ghost var frame := Cycle(keys[k], keys[..k]);
        frames := frames + [frame];
        assert keys[..k + 1] == keys[..k] + [keys[k]];
        if Decides(keys[k]) {
          DecidingFirst(keys, k);
        }
        k := k + 1;
      }
      result := choice;
    }

    lemma FrameShown(keys: seq<KeyActivity>)
      requires Valid() && UpToDate() && LegendRight() && Pos(first, selected) == After(keys, max, height)
      ensures Frame(l.screen[..], l.cursor, l.legend) == FrameAt(Items(), keys, max, height, blank, l.width)
    {
      var f := FrameAt(Items(), keys, max, height, blank, l.width);
      forall r | 0 <= r < |blank|
        ensures l.screen[..][r] == f.rows[r]
      {
      }
    }
  }

  // ---------------------------------------------------------------- runs

  /** What the display shows. */
  datatype Frame = Frame(rows: seq<string>, cursor: int, legend: Legend)

  /** The legend that offers the directions in which the selection can move. */
  function LegendAt(selected: nat, max: int): Legend {
    if selected == 0 then Legend_VDX else if selected == max then LegendUV_X else LegendUVDX
  }

  /** The display after a full redraw, given the keys so far. */
  function FrameAt(items: seq<seq<string>>, keys: seq<KeyActivity>, max: int, height: nat, blank: seq<string>,
                   cols: nat): Frame {
    var p := After(keys, max, height);
    Frame(seq(|blank|, r requires 0 <= r < |blank| => RowText(items, p.first, r, blank[r], cols)), p.selected - p.first,
          LegendAt(p.selected, max))
  }

  predicate Decides(k: KeyActivity) { IsEnter(k) || IsExit(k) }

  /** Index of the first key that ends the menu, or the number of keys. */
  function Deciding(keys: seq<KeyActivity>): nat {
    if keys == [] || Decides(keys[0]) then 0 else 1 + Deciding(keys[1..])
  }

  lemma {:induction false} DecidingFirst(keys: seq<KeyActivity>, k: nat)
    requires k <= |keys| && (forall j | 0 <= j < k :: !Decides(keys[j])) && (k < |keys| ==> Decides(keys[k]))
    ensures Deciding(keys) == k
  {
    if k == 0 {
    } else {
      DecidingFirst(keys[1..], k - 1);
    }
  }

  /** The selected item at the first key that decides, if that is not the cancel key. */
  function Choose(keys: seq<KeyActivity>, max: int, height: nat): int {
    var k := Deciding(keys);
    if k >= |keys| then CHOICE_NONE
    else if IsEnter(keys[k]) then After(keys[..k], max, height).selected
    else CHOICE_CANCEL
  }

  /** Two keys choose the selected item and two cancel, with -2; without one of them the menu ends
      with -1. */
  lemma KeysChoose(keys: seq<KeyActivity>, k: nat, max: int, height: nat)
    requires k <= |keys|
    requires forall j | 0 <= j < k :: keys[j] !in [ENTER_RELEASE, UR_RELEASE, EXIT_RELEASE, LR_RELEASE]
    requires k < |keys| ==> keys[k] in [ENTER_RELEASE, UR_RELEASE, EXIT_RELEASE, LR_RELEASE]
    ensures Choose(keys, max, height) ==
              if k == |keys| then -1
              else if keys[k] in [ENTER_RELEASE, UR_RELEASE] then After(keys[..k], max, height).selected
              else -2
  {
    hide After;
    DecidingFirst(keys, k);
  }

  /** The cursor stands on the row that shows the selected item, and the rows around it show the
      items around it. */
  lemma CursorMarksSelected(items: seq<seq<string>>, keys: seq<KeyActivity>, max: int, height: nat,
                            blank: seq<string>, cols: nat, r: nat)
    requires max == |items| - 1 && |blank| == height + 1 && r <= height
    ensures var f, p := FrameAt(items, keys, max, height, blank, cols), After(keys, max, height);
            && 0 <= f.cursor <= height && |f.rows| == height + 1
            && var item := p.selected + r - f.cursor;
               item >= 0 && f.rows[r] == if item < |items| then Shown(items[item], 0, cols) else blank[r]
  {
    hide Shown, After;
    AlwaysOnScreen(keys, max, height);
  }

  /** The legend offers to move up or down exactly if there is an item in that direction, except
      that it always offers down on the first. */
  lemma LegendMeaning(p: Pos, max: int, height: nat)
    requires OnScreen(p, max, height)
    ensures LegendAt(p.selected, max) == Legend_VDX <==> Next(p, UP_RELEASE, max, height) == p
    ensures LegendAt(p.selected, max) == LegendUV_X <==>
              Next(p, UP_RELEASE, max, height) != p && Next(p, DOWN_RELEASE, max, height) == p
    ensures LegendAt(p.selected, max) == LegendUVDX <==>
              Next(p, UP_RELEASE, max, height) != p && Next(p, DOWN_RELEASE, max, height) != p
  {
  }

  /** A choice is an item, unless the menu is empty and the key that decides is an enter key. */
  lemma ChoiceIsItem(keys: seq<KeyActivity>, max: int, height: nat)
    requires max >= -1
    ensures var c := Choose(keys, max, height);
            (c == CHOICE_NONE || c == CHOICE_CANCEL || 0 <= c <= max)
            <==> !(max == -1 && Deciding(keys) < |keys| && IsEnter(keys[Deciding(keys)]))
    ensures Choose(keys, max, height) >= 0 && max == -1 ==> Choose(keys, max, height) == 0
  {
    var k := Deciding(keys);
    if k < |keys| {
      AlwaysOnScreen(keys[..k], max, height);
    }
  }

  /** In an empty menu the enter key chooses item 0, which is not there. */
  lemma EmptyMenuChooses(height: nat)
    ensures Choose([ENTER_RELEASE], -1, height) == 0
  {
    assert Deciding([ENTER_RELEASE]) == 0 && [ENTER_RELEASE][..0] == [];
  }

  /** The row of an item shows its text, padded or truncated to the width. */
  lemma RowShowsItem(text: string, width: nat)
    requires width < 256 && |FitLines(text, width, 255)| <= 1
    ensures Shown(FitLines(text, width, 255), 0, width) == Padcate(text, width)
  {
    OneLineShows(text, width, 255);
  }
}
