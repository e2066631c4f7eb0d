// The cursor of src/kilo.c is kept as a position on the screen and two offsets.
// What the commands do to all six numbers, and when whole runs of them edit one flat
// string at one offset.
module KiloScreen {
  import opened KiloText

  // struct editorConfig, with the rows as texts
  datatype Screen = Screen(rows: seq<Row>, cx: int, cy: int, rowoff: int, coloff: int,
                           screenrows: int, screencols: int) {
    function FileRow(): int {
      rowoff + cy
    }

    function FileCol(): int {
      coloff + cx
    }

    // The commands index rows and buffers with these.
    predicate Addressable() {
      FileRow() >= 0 && FileCol() >= 0
    }

    function Where(): View
      requires Addressable()
    {
      View(rows, FileRow(), FileCol())
    }

    predicate InRow() {
      Addressable() && Where().InRow()
    }

    predicate Displayed() {
      0 <= cx < screencols && 0 <= cy < screenrows && rowoff >= 0 && coloff >= 0
    }

    // Backspace would join this row to the one above.
    predicate Joins() {
      0 < FileRow() < |rows| && FileCol() == 0
    }
  }

  function Right(s: Screen): Screen {
    if s.cx == s.screencols - 1 then s.(coloff := s.coloff + 1) else s.(cx := s.cx + 1)
  }

  function Down(s: Screen): Screen {
    var t := if s.cy == s.screenrows - 1 then s.(rowoff := s.rowoff + 1) else s.(cy := s.cy + 1);
    t.(cx := 0, coloff := 0)
  }

  function Left(s: Screen): Screen {
    if s.cx == 0 && s.coloff != 0 then s.(coloff := s.coloff - 1) else s.(cx := s.cx - 1)
  }

  // The cursor after a join behind k characters; coloff is not reset.
  function Joined(s: Screen, k: nat): Screen {
    var t := if s.cy == 0 then s.(rowoff := s.rowoff - 1) else s.(cy := s.cy - 1);
    if k < s.screencols then t.(cx := k)
    else
      var shift := s.screencols - k + 1;
      t.(cx := k - shift, coloff := t.coloff + shift)
  }

  function Apply(s: Screen, cmd: Command): Screen
    requires s.Addressable()
  {
    var rows := Do(s.Where(), cmd).rows;
    match cmd
    case Type(_) => Right(s).(rows := rows)
    case Newline => if s.FileRow() > |s.rows| then s else Down(s).(rows := rows)
    case Backspace =>
      if s.FileRow() >= |s.rows| || (s.FileCol() == 0 && s.FileRow() == 0) then s
      else if s.FileCol() == 0 then Joined(s, |s.rows[s.FileRow() - 1]|).(rows := rows)
      else Left(s).(rows := rows)
  }

  // ------------------------------------------------------------ one command

  // A caller can see these two before the call.
  predicate Strays(s: Screen, cmd: Command) {
    cmd == Backspace && s.Joins() && s.coloff != 0
  }

  predicate Overflows(s: Screen, cmd: Command) {
    cmd == Backspace && s.Joins() && |s.rows[s.FileRow() - 1]| > s.screencols
  }

  // The cursor goes where the command means it to go, except after a join with
  // coloff != 0, which puts it off by coloff.
  lemma FollowsIff(s: Screen, cmd: Command)
    requires s.Addressable()
    ensures var t := Apply(s, cmd);
      && t.rows == Do(s.Where(), cmd).rows && t.FileRow() == Do(s.Where(), cmd).r
      && t.FileCol() == Do(s.Where(), cmd).c + (if cmd == Backspace && s.Joins() then s.coloff else 0)
      && (t.Addressable() && t.Where() == Do(s.Where(), cmd) <==> !Strays(s, cmd))
  {
  }

  // A displayed cursor stays displayed, except after a join onto a row longer than
  // the screen is wide: the shift computed there is then not positive.
  lemma DisplayedIff(s: Screen, cmd: Command)
    requires s.Addressable() && s.Displayed()
    ensures Apply(s, cmd).Displayed() <==> !Overflows(s, cmd)
  {
  }

  // The first column (or row) shown, once at is made visible by scrolling no further than
  // needed a window that is size wide and starts at off.
  function Scrolled(off: int, at: int, size: int): int {
    if at < off then at else if at >= off + size then at - size + 1 else off
  }

  // The view is scrolled if and only if the cursor would leave it, and then just far
  // enough, but for those joins.
  lemma ScrollsIff(s: Screen, cmd: Command)
    requires s.Addressable() && s.Displayed()
    ensures var t := Apply(s, cmd);
      && t.rowoff == Scrolled(s.rowoff, t.FileRow(), s.screenrows)
      && (t.coloff == Scrolled(s.coloff, t.FileCol(), s.screencols) <==> !Overflows(s, cmd))
      && t.screenrows == s.screenrows && t.screencols == s.screencols
  {
  }

  // Backspace restores rows and cursor after a character exactly when the cursor was
  // in a row ...
  lemma BackspaceUndoesTypeIff(s: Screen, ch: char)
    requires s.Addressable()
    ensures var t := Apply(s, Type(ch));
      && t.Addressable() && Apply(t, Backspace).Addressable()
      && (Apply(t, Backspace).Where() == s.Where() <==> s.InRow())
  {
    EraseUndoesTypedIff(s.rows, s.FileRow(), s.FileCol(), ch);
    FollowsIff(s, Type(ch));
    FollowsIff(Apply(s, Type(ch)), Backspace);
  }

  // ... and after a newline also where neither command does anything.
  lemma BackspaceUndoesNewlineIff(s: Screen)
    requires s.Addressable()
    ensures var t := Apply(s, Newline);
      && t.Addressable() && Apply(t, Backspace).Addressable()
      && (Apply(t, Backspace).Where() == s.Where() <==> s.InRow() || s.FileRow() > |s.rows|)
  {
    FollowsIff(s, Newline);
    if s.FileRow() <= |s.rows| {
      EraseUndoesBrokenIff(s.rows, s.FileRow(), s.FileCol());
      FollowsIff(Apply(s, Newline), Backspace);
    }
  }

  // ------------------------------------------------------------ whole runs

  // Before each command the rows and the cursor are the one-string editor's, and so
  // they are at the end.
  predicate Agrees(s: Screen, l: Line, cmds: seq<Command>)
    decreases |cmds|
  {
    && s.InRow() && AsLine(s.Where()) == l && l.at <= |l.text|
    && (cmds != [] ==> Agrees(Apply(s, cmds[0]), DoLine(l, cmds[0]), cmds[1..]))
  }

  // No command of the run joins rows with coloff != 0.
  predicate Stays(s: Screen, cmds: seq<Command>)
    decreases |cmds|
  {
    cmds != [] ==> s.Addressable() && !Strays(s, cmds[0]) && Stays(Apply(s, cmds[0]), cmds[1..])
  }

  // No command of the run joins onto a row longer than the screen is wide.
  predicate Fits(s: Screen, cmds: seq<Command>)
    decreases |cmds|
  {
    cmds != [] ==> s.Addressable() && !Overflows(s, cmds[0]) && Fits(Apply(s, cmds[0]), cmds[1..])
  }

  lemma StepAgrees(s: Screen, cmd: Command)
    requires s.InRow()
    ensures AsLine(s.Where()).at <= |AsLine(s.Where()).text|
    ensures var t := Apply(s, cmd);
      t.InRow() && AsLine(t.Where()) == DoLine(AsLine(s.Where()), cmd) <==> !Strays(s, cmd)
  {
    hide Flat, Typed, Broken, Erased;
    OffsetInside(s.Where());
    DoRefines(s.Where(), cmd);
    FollowsIff(s, cmd);
  }

  lemma AsLineOk(v: View)
    requires v.InRow()
    ensures AsLine(v).at <= |AsLine(v).text|
  {
    OffsetInside(v);
  }

  // A run edits one string at one offset if and only if it never joins rows with
  // coloff != 0.
  lemma {:induction false} AgreesIff(s: Screen, cmds: seq<Command>)
    requires s.InRow()
    ensures Agrees(s, AsLine(s.Where()), cmds) <==> Stays(s, cmds)
    decreases |cmds|
  {
    hide Flat, AsLine, Apply, DoLine, Strays;
    AsLineOk(s.Where());
    if cmds != [] {
      var t := Apply(s, cmds[0]);
      StepAgrees(s, cmds[0]);
      if t.InRow() {
        AgreesIff(t, cmds[1..]);
      }
    }
  }

  // The state after a run; the source leaves its buffers once the cursor is not
  // addressable.
  function Run(s: Screen, cmds: seq<Command>): Screen
    decreases |cmds|
  {
    if cmds == [] || !s.Addressable() then s else Run(Apply(s, cmds[0]), cmds[1..])
  }

  // A run started with the cursor displayed in a row edits one string at one offset,
  // and keeps the cursor displayed, if it never joins onto a row longer than the
  // screen is wide.
  lemma {:induction false} RunRefines(s: Screen, cmds: seq<Command>)
    requires s.InRow() && s.Displayed() && Fits(s, cmds)
    ensures AsLine(s.Where()).at <= |AsLine(s.Where()).text|
    ensures Stays(s, cmds) && Run(s, cmds).Displayed() && Run(s, cmds).InRow()
    ensures AsLine(Run(s, cmds).Where()) == RunLine(AsLine(s.Where()), cmds)
    decreases |cmds|
  {
    hide Flat, AsLine, Apply, DoLine;
    AsLineOk(s.Where());
    if cmds != [] {
      StepAgrees(s, cmds[0]);
      DisplayedIff(s, cmds[0]);
      RunRefines(Apply(s, cmds[0]), cmds[1..]);
    }
  }

  // Such a run keeps the cursor displayed throughout if and only if it fits.
  predicate Shown(s: Screen, cmds: seq<Command>)
    decreases |cmds|
  {
    s.Addressable() && s.Displayed() && (cmds != [] ==> Shown(Apply(s, cmds[0]), cmds[1..]))
  }

  lemma {:induction false} ShownIff(s: Screen, cmds: seq<Command>)
    requires s.Addressable() && s.Displayed()
    ensures Shown(s, cmds) <==> Fits(s, cmds)
    decreases |cmds|
  {
    hide Apply, Overflows;
    if cmds != [] {
      DisplayedIff(s, cmds[0]);
      if Apply(s, cmds[0]).Displayed() {
        ShownIff(Apply(s, cmds[0]), cmds[1..]);
      }
    }
  }

  // ------------------------------------------------------------ leaving the screen

  function Times(cmd: Command, n: nat): seq<Command> {
    seq(n, _ => cmd)
  }

  function Repeated(ch: char, n: nat): KiloText.Row {
    seq(n, _ => ch)
  }

  lemma {:induction false} RunAppend(s: Screen, a: seq<Command>, b: seq<Command>)
    ensures Run(s, a + b) == Run(Run(s, a), b)
    decreases |a|
  {
    if a == [] || !s.Addressable() {
      assert a == [] ==> a + b == b;
    } else {
      assert (a + b)[1..] == a[1..] + b;
      RunAppend(Apply(s, a[0]), a[1..], b);
    }
  }

  // Typing at the end of the last row.
  lemma {:induction false} TypeRun(s: Screen, n: nat, ch: char)
    requires s.Addressable() && s.rows != [] && s.FileRow() == |s.rows| - 1
    requires s.FileCol() == |s.rows[|s.rows| - 1]|
    ensures var t := Run(s, Times(Type(ch), n)); var k := |s.rows| - 1;
      && t.rows == s.rows[..k] + [s.rows[k] + Repeated(ch, n)]
      && t.FileRow() == s.FileRow() && t.FileCol() == s.FileCol() + n
      && t.screencols == s.screencols
    decreases n
  {
    var k := |s.rows| - 1;
    if n == 0 {
      assert s.rows[k] + Repeated(ch, 0) == s.rows[k];
    } else {
      var t := Apply(s, Type(ch));
      assert t.rows[k] == s.rows[k] + [ch];
      assert t.rows[..k] == s.rows[..k];
      TypeRun(t, n - 1, ch);
      assert Times(Type(ch), n)[1..] == Times(Type(ch), n - 1);
      assert (s.rows[k] + [ch]) + Repeated(ch, n - 1) == s.rows[k] + Repeated(ch, n);
    }
  }

  // Backspaces inside the last row, with the cursor on the screen.
  lemma {:induction false} EraseRun(s: Screen, n: nat)
    requires s.Addressable() && s.rows != [] && s.FileRow() == |s.rows| - 1
    requires s.FileCol() == |s.rows[|s.rows| - 1]| >= n && s.cx >= n
    ensures var t := Run(s, Times(Backspace, n)); var k := |s.rows| - 1;
      t == s.(rows := s.rows[..k] + [s.rows[k][..|s.rows[k]| - n]], cx := s.cx - n)
    decreases n
  {
    var k := |s.rows| - 1;
    var row := s.rows[k];
    if n == 0 {
      assert row[..|row|] == row;
    } else {
      var t := Apply(s, Backspace);
      assert t.rows[k] == row[..|row| - 1] && t.rows[..k] == s.rows[..k];
      EraseRun(t, n - 1);
      assert Times(Backspace, n)[1..] == Times(Backspace, n - 1);
      assert row[..|row| - 1][..|row| - n] == row[..|row| - n];
    }
  }

  // From an empty editor: Enter, a row of n characters, Enter.
  function Filled(n: nat, ch: char): seq<Command> {
    [Newline] + Times(Type(ch), n) + [Newline]
  }

  function Empty(screenrows: int, screencols: int): Screen {
    Screen([], 0, 0, 0, 0, screenrows, screencols)
  }

  lemma TypedAfterLast(rows: seq<KiloText.Row>, ch: char)
    ensures Typed(rows, |rows|, 0, ch) == rows + [[ch]]
  {
    var g := Grown(rows, |rows|);
    assert g == rows + [[]];
    assert TypedRow(g[|rows|], 0, ch) == [ch];
  }

  lemma JoinedEmpty(above: seq<KiloText.Row>, row: KiloText.Row)
    ensures Erased(above + [row, []], |above| + 1, 0) == above + [row]
  {
    var rows := above + [row, []];
    assert rows[..|above|] == above && rows[|above|] + rows[|above| + 1] == row;
  }

  lemma BrokenAtRowEnd(above: seq<KiloText.Row>, row: KiloText.Row)
    ensures Broken(above + [row], |above|, |row|) == above + [row, []]
  {
    var rows := above + [row];
    assert row[..|row|] == row && row[|row|..] == [];
    assert Broken(rows, |above|, |row|) == rows[..|above|] + [row, []] + rows[|above| + 1..];
  }

  lemma FilledRun(screenrows: int, screencols: int, n: nat, ch: char)
    requires n > 0
    ensures var t := Run(Empty(screenrows, screencols), Filled(n, ch));
      && t.rows == [[], Repeated(ch, n), []] && t.FileRow() == 2 && t.cx == t.coloff == 0
      && t.screencols == screencols
  {
    var s := Empty(screenrows, screencols);
    var s1 := Apply(s, Newline);
    assert s1.rows == [[]];
    FirstRow(s1, n, ch);
    var s3 := Run(s1, Times(Type(ch), n));
    BrokenAtRowEnd([[]], Repeated(ch, n));
    assert [[]] + [Repeated(ch, n)] == [[], Repeated(ch, n)];
    assert [[]] + [Repeated(ch, n), []] == [[], Repeated(ch, n), []];
    RunAppend(s, [Newline], Times(Type(ch), n));
    RunAppend(s, [Newline] + Times(Type(ch), n), [Newline]);
    RunOne(s, Newline);
    RunOne(s3, Newline);
  }

  // Typing a row after the last one.
  lemma FirstRow(s: Screen, n: nat, ch: char)
    requires s.rows == [[]] && s.FileRow() == 1 && s.FileCol() == 0 && n > 0
    ensures var t := Run(s, Times(Type(ch), n));
      && t.rows == [[], Repeated(ch, n)]
      && t.FileRow() == 1 && t.FileCol() == n && t.screencols == s.screencols
  {
    var t := Apply(s, Type(ch));
    TypedAfterLast([[]], ch);
    assert t.rows == [[], [ch]];
    TypeRun(t, n - 1, ch);
    assert [ch] + Repeated(ch, n - 1) == Repeated(ch, n);
    assert t.rows[..1] + [Repeated(ch, n)] == [[], Repeated(ch, n)];
    assert Times(Type(ch), n)[1..] == Times(Type(ch), n - 1);
  }

  lemma RunOne(s: Screen, cmd: Command)
    requires s.Addressable()
    ensures Run(s, [cmd]) == Apply(s, cmd)
  {
    assert [cmd][1..] == [];
  }

  // Deleting such a row again, when it is at least two characters wider than the
  // screen, leaves the cursor before column 0 of the first row: the next character
  // would be written in front of the row's buffer.
  lemma {:induction false} OffScreen(screenrows: int, screencols: nat, n: nat, ch: char)
    requires n >= screencols + 2
    ensures var s := Run(Empty(screenrows, screencols), Filled(n, ch));
      var t := Run(s, Times(Backspace, n + 2));
      && Run(s, Times(Backspace, n + 1)).Addressable()
      && t.rows == [[]] && t.FileRow() == 0 && t.FileCol() == screencols + 1 - n && !t.Addressable()
  {
    FilledRun(screenrows, screencols, n, ch);
    var s := Run(Empty(screenrows, screencols), Filled(n, ch));
    var row := Repeated(ch, n);
    var s1 := Apply(s, Backspace);
    JoinedEmpty([[]], row);
    assert [[]] + [row] == [[], row];
    EraseRun(s1, n);
    var s2 := Run(s1, Times(Backspace, n));
    assert s2.rows == [[], []];
    var t := Apply(s2, Backspace);
    JoinedEmpty([], []);
    assert t.rows == [[]];
    assert Times(Backspace, n + 1)[1..] == Times(Backspace, n);
    assert Run(s, Times(Backspace, n + 1)) == s2;
    assert Times(Backspace, n + 2) == Times(Backspace, n + 1) + [Backspace];
    RunAppend(s, Times(Backspace, n + 1), [Backspace]);
    RunOne(s2, Backspace);
  }
}
