// The text held by the editor of src/kilo.c: rows, the flat string they stand for,
// and what each editing command does to it at the logical cursor (row r, column c).
module KiloText {

  type Row = seq<char>

  const NEWLINE: char := '\n'

  // The text editorRowsToString produces.
  function Flat(rows: seq<Row>): seq<char> {
    if rows == [] then [] else rows[0] + [NEWLINE] + Flat(rows[1..])
  }

  // Where column c of row r is in the flat text.
  function Offset(rows: seq<Row>, r: nat, c: nat): nat
    requires r <= |rows|
  {
    |Flat(rows[..r])| + c
  }

  function Blank(n: nat): Row {
    seq(n, _ => ' ')
  }

  function Least(a: nat, b: nat): nat {
    if a < b then a else b
  }

  // editorInsertChar: missing rows are added, a short row is padded.
  function Grown(rows: seq<Row>, r: nat): (g: seq<Row>)
    ensures r < |g|
  {
    if r < |rows| then rows else rows + seq(r + 1 - |rows|, _ => [])
  }

  function TypedRow(row: Row, c: nat, ch: char): Row {
    if c <= |row| then row[..c] + [ch] + row[c..] else row + Blank(c - |row|) + [ch]
  }

  function Typed(rows: seq<Row>, r: nat, c: nat, ch: char): seq<Row> {
    var g := Grown(rows, r);
    g[r := TypedRow(g[r], c, ch)]
  }

  // editorInsertNewline
  function Broken(rows: seq<Row>, r: nat, c: nat): seq<Row> {
    if r > |rows| then rows
    else if r == |rows| then rows + [[]]
    else
      var k := Least(c, |rows[r]|);
      rows[..r] + [rows[r][..k], rows[r][k..]] + rows[r + 1..]
  }

  // editorDelChar
  function Erased(rows: seq<Row>, r: nat, c: nat): seq<Row> {
    if r >= |rows| || (c == 0 && r == 0) then rows
    else if c == 0 then rows[..r - 1] + [rows[r - 1] + rows[r]] + rows[r + 1..]
    else if c > |rows[r]| then rows
    else rows[r := rows[r][..c - 1] + rows[r][c..]]
  }

  // ------------------------------------------------------------ flat text

  lemma {:induction false} FlatConcat(a: seq<Row>, b: seq<Row>)
    ensures Flat(a + b) == Flat(a) + Flat(b)
  {
    if a == [] {
      assert a + b == b;
    } else {
      assert (a + b)[1..] == a[1..] + b;
      FlatConcat(a[1..], b);
    }
  }

  lemma {:induction false} FlatOne(row: Row)
    ensures Flat([row]) == row + [NEWLINE]
  {
    assert Flat([row][1..]) == [];
  }

  // The flat text around row r.
  lemma FlatAround(a: seq<Row>, row: Row, b: seq<Row>)
    ensures Flat(a + [row] + b) == Flat(a) + (row + [NEWLINE]) + Flat(b)
  {
    FlatConcat(a + [row], b);
    FlatConcat(a, [row]);
    FlatOne(row);
  }

  lemma Cut(a: seq<char>, x: seq<char>, y: seq<char>, b: seq<char>)
    ensures (a + (x + y + [NEWLINE]) + b)[..|a| + |x|] == a + x
    ensures (a + (x + y + [NEWLINE]) + b)[|a| + |x|..] == y + [NEWLINE] + b
  {
  }

  lemma Reassemble(a: seq<char>, x: seq<char>, m: seq<char>, y: seq<char>, b: seq<char>)
    ensures a + x + m + (y + [NEWLINE] + b) == a + (x + m + y + [NEWLINE]) + b
  {
  }

  // Putting m into row r at column c is putting it into the flat text at that offset.
  lemma RowInsert(rows: seq<Row>, r: nat, c: nat, m: seq<char>)
    requires r < |rows| && c <= |rows[r]|
    ensures var o, t := Offset(rows, r, c), Flat(rows);
      o <= |t| && Flat(rows[r := rows[r][..c] + m + rows[r][c..]]) == t[..o] + m + t[o..]
  {
    hide Flat;
    var a, row, b := rows[..r], rows[r], rows[r + 1..];
    var x, y := row[..c], row[c..];
    assert rows == a + [row] + b;
    assert rows[r := x + m + y] == a + [x + m + y] + b;
    FlatAround(a, row, b);
    FlatAround(a, x + m + y, b);
    assert row == x + y;
    Cut(Flat(a), x, y, Flat(b));
    Reassemble(Flat(a), x, m, y, Flat(b));
  }

  // ------------------------------------------------------------ the commands

  // Typing inside the text adds exactly that character at the cursor's offset, and
  // the next column is one further on.
  lemma TypedFlat(rows: seq<Row>, r: nat, c: nat, ch: char)
    requires r < |rows| && c <= |rows[r]|
    ensures var o, t, rows' := Offset(rows, r, c), Flat(rows), Typed(rows, r, c, ch);
      && o <= |t| && Flat(rows') == t[..o] + [ch] + t[o..]
      && c + 1 <= |rows'[r]| && Offset(rows', r, c + 1) == o + 1
  {
    RowInsert(rows, r, c, [ch]);
    assert Typed(rows, r, c, ch)[..r] == rows[..r];
  }

  lemma {:induction false} FlatEmpties(n: nat)
    ensures |Flat(seq(n, _ => []))| == n
  {
    if n > 0 {
      assert seq<Row>(n, _ => [])[1..] == seq(n - 1, _ => []);
      FlatEmpties(n - 1);
    }
  }

  // Typing beyond the end of a row fills it up with spaces ...
  lemma TypedBeyondRow(rows: seq<Row>, r: nat, c: nat, ch: char)
    requires r < |rows| && c > |rows[r]|
    ensures var rows' := Typed(rows, r, c, ch);
      && |rows'| == |rows| && (forall i :: 0 <= i < |rows| && i != r ==> rows'[i] == rows[i])
      && |rows'[r]| == c + 1 && rows'[r][..|rows[r]|] == rows[r] && rows'[r][c] == ch
      && forall j :: |rows[r]| <= j < c ==> rows'[r][j] == ' '
  {
  }

  // ... and beyond the last row adds empty rows up to the new one, which starts with
  // spaces.
  lemma TypedBeyondText(rows: seq<Row>, r: nat, c: nat, ch: char)
    requires r >= |rows|
    ensures var rows' := Typed(rows, r, c, ch);
      && |rows'| == r + 1 && rows'[..|rows|] == rows && (forall i :: |rows| <= i < r ==> rows'[i] == [])
      && |rows'[r]| == c + 1 && rows'[r][c] == ch && forall j :: 0 <= j < c ==> rows'[r][j] == ' '
  {
  }

  // A newline changes nothing exactly below the row after the last one, a backspace
  // exactly at the start of the text, below it, and beyond the end of a row.
  lemma NothingIff(rows: seq<Row>, r: nat, c: nat)
    ensures Broken(rows, r, c) == rows <==> r > |rows|
    ensures Erased(rows, r, c) == rows <==> r >= |rows| || (r == 0 && c == 0) || c > |rows[r]|
  {
    if r < |rows| {
      if c == 0 && r > 0 {
        assert |Erased(rows, r, c)| == |rows| - 1;
      } else if 0 < c <= |rows[r]| {
        assert |Erased(rows, r, c)[r]| == |rows[r]| - 1;
      }
      assert |Broken(rows, r, c)| == |rows| + 1;
    }
  }

  lemma GrownLength(rows: seq<Row>, r: nat)
    ensures |Flat(Grown(rows, r))| == |Flat(rows)| + if r < |rows| then 0 else r + 1 - |rows|
    ensures Grown(rows, r)[r] == if r < |rows| then rows[r] else []
  {
    hide Flat;
    if r >= |rows| {
      FlatEmpties(r + 1 - |rows|);
      FlatConcat(rows, seq(r + 1 - |rows|, _ => []));
    }
  }

  // Typing into row r puts in the character, and the padding before it.
  lemma PaddedIn(g: seq<Row>, r: nat, c: nat, ch: char)
    requires r < |g|
    ensures |Flat(g[r := TypedRow(g[r], c, ch)])| == |Flat(g)| + 1 + c - Least(c, |g[r]|)
  {
    hide Flat;
    var k := Least(c, |g[r]|);
    var m := Blank(c - k) + [ch];
    assert TypedRow(g[r], c, ch) == g[r][..k] + m + g[r][k..];
    RowInsert(g, r, k, m);
  }

  // Anywhere else it also adds the missing rows and the padding.
  lemma {:induction false} TypedLength(rows: seq<Row>, r: nat, c: nat, ch: char)
    ensures |Flat(Typed(rows, r, c, ch))| == |Flat(rows)| + 1
      + (if r < |rows| then 0 else r + 1 - |rows|)
      + (if r < |rows| && c <= |rows[r]| then 0 else c - if r < |rows| then |rows[r]| else 0)
  {
    hide Flat, Grown, TypedRow;
    GrownLength(rows, r);
    PaddedIn(Grown(rows, r), r, c, ch);
  }

  lemma {:induction false} TypedOneIff(rows: seq<Row>, r: nat, c: nat, ch: char)
    ensures |Flat(Typed(rows, r, c, ch))| == |Flat(rows)| + 1 <==> r < |rows| && c <= |rows[r]|
  {
    TypedLength(rows, r, c, ch);
  }

  // A newline at or before the end of the text adds exactly one newline character.
  lemma {:induction false} BrokenFlat(rows: seq<Row>, r: nat, c: nat)
    requires r <= |rows|
    ensures var k := if r < |rows| then Least(c, |rows[r]|) else 0;
      var o, t, rows' := Offset(rows, r, k), Flat(rows), Broken(rows, r, c);
      && o <= |t| && Flat(rows') == t[..o] + [NEWLINE] + t[o..]
      && r + 1 <= |rows'| && Offset(rows', r + 1, 0) == o + 1
  {
    hide Flat;
    if r == |rows| {
      BrokenAtEnd(rows);
      WholeTake(rows);
      WholeTake(Broken(rows, r, c));
      WholeTake(Flat(rows));
    } else {
      BrokenInside(rows, r, Least(c, |rows[r]|));
    }
  }

  lemma BrokenAtEnd(rows: seq<Row>)
    ensures Flat(rows + [[]]) == Flat(rows) + [NEWLINE]
  {
    hide Flat;
    var none: Row := [];
    FlatConcat(rows, [none]);
    FlatOne(none);
    assert none + [NEWLINE] == [NEWLINE];
  }

  lemma WholeTake<T>(s: seq<T>)
    ensures s[..|s|] == s
  {
  }

  lemma {:induction false} FlatPair(a: seq<Row>, x: Row, y: Row, b: seq<Row>)
    ensures Flat(a + [x, y] + b) == Flat(a) + (x + [NEWLINE] + y + [NEWLINE]) + Flat(b)
    ensures Flat((a + [x, y] + b)[..|a| + 1]) == Flat(a) + (x + [NEWLINE])
  {
    assert a + [x, y] + b == (a + [x]) + [y] + b;
    assert (a + [x, y] + b)[..|a| + 1] == a + [x];
    FlatAround(a + [x], y, b);
    FlatConcat(a, [x]);
    FlatOne(x);
    Shift(Flat(a), x, y, Flat(b));
  }

  lemma {:induction false} BrokenParts(rows: seq<Row>, a: seq<Row>, x: Row, y: Row, b: seq<Row>)
    requires rows == a + [x + y] + b
    ensures var o, t := Offset(rows, |a|, |x|), Flat(rows);
      && o <= |t| && Flat(a + [x, y] + b) == t[..o] + [NEWLINE] + t[o..]
      && Offset(a + [x, y] + b, |a| + 1, 0) == o + 1
  {
    hide Flat;
    FlatAround(a, x + y, b);
    FlatPair(a, x, y, b);
    Cut(Flat(a), x, y, Flat(b));
    Reassemble(Flat(a), x, [NEWLINE], y, Flat(b));
    TakeOver(a, x + y, b);
  }

  lemma TakeOver(a: seq<Row>, row: Row, b: seq<Row>)
    ensures (a + [row] + b)[..|a|] == a && (a + [row] + b)[|a|] == row
  {
  }

  lemma RowSplit(rows: seq<Row>, r: nat, k: nat)
    requires r < |rows| && k <= |rows[r]|
    ensures rows == rows[..r] + [rows[r][..k] + rows[r][k..]] + rows[r + 1..]
  {
    assert rows[r][..k] + rows[r][k..] == rows[r];
  }

  lemma {:induction false} BrokenInside(rows: seq<Row>, r: nat, k: nat)
    requires r < |rows| && k <= |rows[r]|
    ensures var o, t, rows' := Offset(rows, r, k), Flat(rows), rows[..r] + [rows[r][..k], rows[r][k..]] + rows[r + 1..];
      && o <= |t| && Flat(rows') == t[..o] + [NEWLINE] + t[o..]
      && Offset(rows', r + 1, 0) == o + 1
  {
    hide Flat, Offset;
    RowSplit(rows, r, k);
    BrokenParts(rows, rows[..r], rows[r][..k], rows[r][k..], rows[r + 1..]);
  }

  lemma {:induction false} Shift(a: seq<char>, x: seq<char>, y: seq<char>, b: seq<char>)
    ensures a + (x + [NEWLINE]) + (y + [NEWLINE]) + b == a + (x + [NEWLINE] + y + [NEWLINE]) + b
  {
  }

  // Where the cursor lies after editorDelChar.
  function ErasedAt(rows: seq<Row>, r: nat, c: nat): (nat, nat) {
    if r >= |rows| || (c == 0 && r == 0) then (r, c)
    else if c == 0 then (r - 1, |rows[r - 1]|)
    else (r, c - 1)
  }

  // Deleting at a position of the text other than its start removes exactly the
  // character before the cursor, and moves the cursor over it.
  lemma {:induction false} ErasedFlat(rows: seq<Row>, r: nat, c: nat)
    requires r < |rows| && c <= |rows[r]| && (r, c) != (0, 0)
    ensures var o, t, rows' := Offset(rows, r, c), Flat(rows), Erased(rows, r, c);
      && 0 < o <= |t| && Flat(rows') == t[..o - 1] + t[o..]
      && var p := ErasedAt(rows, r, c);
         p.0 < |rows'| && p.1 <= |rows'[p.0]| && Offset(rows', p.0, p.1) == o - 1
  {
    hide Flat;
    if c == 0 {
      ErasedBreak(rows, r);
    } else {
      ErasedInside(rows, r, c);
    }
  }

  lemma {:induction false} ErasedBreak(rows: seq<Row>, r: nat)
    requires 0 < r < |rows|
    ensures var o, t, rows', k := Offset(rows, r, 0), Flat(rows), Erased(rows, r, 0), |rows[r - 1]|;
      && 0 < o <= |t| && Flat(rows') == t[..o - 1] + t[o..]
      && k <= |rows'[r - 1]| && Offset(rows', r - 1, k) == o - 1
  {
    hide Flat;
    var a, x, y, b := rows[..r - 1], rows[r - 1], rows[r], rows[r + 1..];
    AroundPair(rows, r);
    BrokenParts(a + [x + y] + b, a, x, y, b);
    Uncut(Flat(a + [x + y] + b), Offset(a + [x + y] + b, |a|, |x|), NEWLINE);
    TakeOver(a, x + y, b);
  }

  lemma {:induction false} AroundPair(rows: seq<Row>, r: nat)
    requires 0 < r < |rows|
    ensures rows == rows[..r - 1] + [rows[r - 1], rows[r]] + rows[r + 1..]
  {
  }

  lemma {:induction false} ErasedInside(rows: seq<Row>, r: nat, c: nat)
    requires r < |rows| && 0 < c <= |rows[r]|
    ensures var o, t, rows' := Offset(rows, r, c), Flat(rows), Erased(rows, r, c);
      && 0 < o <= |t| && Flat(rows') == t[..o - 1] + t[o..]
      && c - 1 <= |rows'[r]| && Offset(rows', r, c - 1) == o - 1
  {
    hide Flat;
    var row := rows[r];
    var less := rows[r := row[..c - 1] + row[c..]];
    RowInsert(less, r, c - 1, [row[c - 1]]);
    assert less[r][..c - 1] + [row[c - 1]] + less[r][c - 1..] == row;
    assert rows == less[r := row];
    assert less[..r] == rows[..r];
    Uncut(Flat(less), Offset(less, r, c - 1), row[c - 1]);
  }

  lemma {:induction false} Uncut(t: seq<char>, o: nat, ch: char)
    requires o <= |t|
    ensures var u := t[..o] + [ch] + t[o..]; u[..o] + u[o + 1..] == t && |u| == |t| + 1
  {
  }

  // ------------------------------------------------------------ undoing

  // Backspace after typing undoes it exactly when the cursor was in the text;
  // otherwise the added rows and padding stay.
  lemma {:induction false} EraseUndoesTypedIff(rows: seq<Row>, r: nat, c: nat, ch: char)
    ensures Erased(Typed(rows, r, c, ch), r, c + 1) == rows <==> r < |rows| && c <= |rows[r]|
    ensures ErasedAt(Typed(rows, r, c, ch), r, c + 1) == (r, c)
  {
    var g := Grown(rows, r);
    var t := Typed(rows, r, c, ch);
    assert |t[r]| == (if c <= |g[r]| then |g[r]| else c) + 1;
    assert Erased(t, r, c + 1) == t[r := t[r][..c] + t[r][c + 1..]];
    if r < |rows| && c <= |rows[r]| {
      assert t[r][..c] + t[r][c + 1..] == rows[r];
    } else if r < |rows| {
      assert |Erased(t, r, c + 1)[r]| == c;
    }
  }

  // Backspace after a newline restores the rows exactly when the newline did not add
  // a row after the last one, and the cursor exactly when it was not beyond the end
  // of its row either.
  lemma {:induction false} EraseUndoesBrokenIff(rows: seq<Row>, r: nat, c: nat)
    requires r <= |rows|
    ensures Erased(Broken(rows, r, c), r + 1, 0) == rows <==> r < |rows|
    ensures r < |rows| ==> ErasedAt(Broken(rows, r, c), r + 1, 0) == (r, Least(c, |rows[r]|))
    ensures ErasedAt(Broken(rows, r, c), r + 1, 0) == (r, c) <==> r < |rows| && c <= |rows[r]|
  {
    var b := Broken(rows, r, c);
    if r < |rows| {
      var k := Least(c, |rows[r]|);
      assert b[r] == rows[r][..k] && b[r + 1] == rows[r][k..];
      assert b[r] + b[r + 1] == rows[r];
      assert b[..r] == rows[..r] && b[r + 2..] == rows[r + 1..];
      assert Erased(b, r + 1, 0) == rows;
    }
  }

  // ------------------------------------------------------------ one command

  datatype Command = Type(ch: char) | Newline | Backspace

  datatype View = View(rows: seq<Row>, r: nat, c: nat) {
    // The cursor is on an existing row, at most at its end.
    predicate InRow() {
      r < |rows| && c <= |rows[r]|
    }
  }

  // What a command means for the rows and the logical cursor.
  function Do(v: View, cmd: Command): View {
    match cmd
    case Type(ch) => View(Typed(v.rows, v.r, v.c, ch), v.r, v.c + 1)
    case Newline =>
      if v.r > |v.rows| then v else View(Broken(v.rows, v.r, v.c), v.r + 1, 0)
    case Backspace =>
      var p := ErasedAt(v.rows, v.r, v.c);
      View(Erased(v.rows, v.r, v.c), p.0, p.1)
  }

  function Backspaces(v: View, n: nat): View
    decreases n
  {
    if n == 0 then v else Backspaces(Do(v, Backspace), n - 1)
  }

  // Beyond the end of a row backspace walks back to it and deletes nothing on the way.
  lemma {:induction false} WalksBack(v: View)
    requires v.r < |v.rows| && v.c >= |v.rows[v.r]|
    ensures Backspaces(v, v.c - |v.rows[v.r]|) == v.(c := |v.rows[v.r]|)
    decreases v.c
  {
    if v.c > |v.rows[v.r]| {
      assert Do(v, Backspace) == v.(c := v.c - 1);
      WalksBack(v.(c := v.c - 1));
    }
  }

  // The simplest editor: one string and an offset into it.
  datatype Line = Line(text: seq<char>, at: nat)

  function DoLine(l: Line, cmd: Command): (m: Line)
    requires l.at <= |l.text|
    ensures m.at <= |m.text|
  {
    match cmd
    case Type(ch) => Line(l.text[..l.at] + [ch] + l.text[l.at..], l.at + 1)
    case Newline => Line(l.text[..l.at] + [NEWLINE] + l.text[l.at..], l.at + 1)
    case Backspace => if l.at == 0 then l else Line(l.text[..l.at - 1] + l.text[l.at..], l.at - 1)
  }

  function AsLine(v: View): Line
    requires v.InRow()
  {
    Line(Flat(v.rows), Offset(v.rows, v.r, v.c))
  }

  lemma {:induction false} OffsetInside(v: View)
    requires v.InRow()
    ensures Offset(v.rows, v.r, v.c) < |Flat(v.rows)|
    ensures Offset(v.rows, v.r, v.c) == 0 <==> (v.r, v.c) == (0, 0)
  {
    var a, row, b := v.rows[..v.r], v.rows[v.r], v.rows[v.r + 1..];
    assert v.rows == a + [row] + b;
    FlatAround(a, row, b);
  }

  lemma {:induction false} DoRefines(v: View, cmd: Command)
    requires v.InRow() && AsLine(v).at <= |AsLine(v).text|
    ensures Do(v, cmd).InRow() && AsLine(Do(v, cmd)) == DoLine(AsLine(v), cmd)
  {
    hide Flat;
    OffsetInside(v);
    match cmd
    case Type(ch) => TypedFlat(v.rows, v.r, v.c, ch);
    case Newline => BrokenFlat(v.rows, v.r, v.c);
    case Backspace =>
      if (v.r, v.c) != (0, 0) {
        ErasedFlat(v.rows, v.r, v.c);
      }
  }

  function RunLine(l: Line, cmds: seq<Command>): (m: Line)
    requires l.at <= |l.text|
    decreases |cmds|
  {
    if cmds == [] then l else RunLine(DoLine(l, cmds[0]), cmds[1..])
  }

  // ------------------------------------------------------------ reading a file back

  // getline: up to and including the first newline.
  function LineEnd(s: seq<char>): (q: nat)
    requires s != []
    ensures 0 < q <= |s|
    ensures forall i :: 0 <= i < q - 1 ==> s[i] != NEWLINE
    ensures s[q - 1] == NEWLINE || q == |s|
  {
    if s[0] == NEWLINE || |s| == 1 then 1 else 1 + LineEnd(s[1..])
  }

  // editorOpen drops one trailing newline or carriage return.
  function Chop(line: seq<char>): Row {
    if line != [] && (line[|line| - 1] == NEWLINE || line[|line| - 1] == '\r') then line[..|line| - 1] else line
  }

  function Lines(s: seq<char>): seq<Row>
    decreases |s|
  {
    if s == [] then [] else [Chop(s[..LineEnd(s)])] + Lines(s[LineEnd(s)..])
  }

  predicate OneLineEach(rows: seq<Row>) {
    forall i :: 0 <= i < |rows| ==> NEWLINE !in rows[i]
  }

  lemma {:induction false} LinesHaveNoNewline(s: seq<char>)
    ensures OneLineEach(Lines(s))
    decreases |s|
  {
    if s != [] {
      LinesHaveNoNewline(s[LineEnd(s)..]);
    }
  }

  lemma {:induction false} LineEndAt(row: Row, rest: seq<char>)
    requires NEWLINE !in row
    ensures LineEnd(row + [NEWLINE] + rest) == |row| + 1
  {
    var s := row + [NEWLINE] + rest;
    assert s[|row|] == NEWLINE;
    var q := LineEnd(s);
    assert forall i :: 0 <= i < |row| ==> s[i] == row[i];
  }

  lemma {:induction false} LinesOfFlat(rows: seq<Row>)
    requires OneLineEach(rows)
    ensures Lines(Flat(rows)) == rows
  {
    if rows != [] {
      var s, rest := Flat(rows), Flat(rows[1..]);
      LineEndAt(rows[0], rest);
      assert s[..|rows[0]| + 1] == rows[0] + [NEWLINE];
      assert s[|rows[0]| + 1..] == rest;
      LinesOfFlat(rows[1..]);
    }
  }

  // A text with a newline at the end, where Chop has taken it or something else.
  function Ended(s: seq<char>): seq<char> {
    if s == [] || s[|s| - 1] == NEWLINE then s
    else (if s[|s| - 1] == '\r' then s[..|s| - 1] else s) + [NEWLINE]
  }

  lemma EndedLine(line: seq<char>)
    requires line != []
    ensures Chop(line) + [NEWLINE] == Ended(line)
  {
  }

  lemma EndedMore(line: seq<char>, rest: seq<char>)
    requires rest != []
    ensures Ended(line + rest) == line + Ended(rest)
  {
    var s := line + rest;
    assert s[|s| - 1] == rest[|rest| - 1];
    assert s[..|s| - 1] == line + rest[..|rest| - 1];
  }

  lemma WholeLine(line: seq<char>)
    requires line != [] && line[|line| - 1] == NEWLINE
    ensures Chop(line) + [NEWLINE] == line
  {
  }

  lemma NoLines()
    ensures Flat(Lines([])) == Ended([]) == Flat([]) == []
  {
  }

  lemma {:induction false} FlatEnded(s: seq<char>)
    ensures Flat(Lines(s)) == Ended(s)
    decreases |s|
  {
    hide Flat, Chop, Ended;
    NoLines();
    if s != [] {
      var line, rest := s[..LineEnd(s)], s[LineEnd(s)..];
      assert s == line + rest;
      FlatEnded(rest);
      FlatFirst(Chop(line), Lines(rest));
      EndedLine(line);
      if rest == [] {
        assert line == s;
      } else {
        EndedMore(line, rest);
        WholeLine(line);
      }
    }
  }

  // What reading a text and writing it back makes of it: it ends in a newline, and a
  // carriage return at the very end is lost.
  lemma {:induction false} FlatOfLines(s: seq<char>)
    ensures Flat(Lines(s)) ==
      if s == [] || s[|s| - 1] == NEWLINE then s
      else (if s[|s| - 1] == '\r' then s[..|s| - 1] else s) + [NEWLINE]
  {
    FlatEnded(s);
  }

  // Opening and saving gives the same text exactly when that ends in a newline or is
  // empty.
  lemma {:induction false} OpenSaveIff(s: seq<char>)
    ensures Flat(Lines(s)) == s <==> s == [] || s[|s| - 1] == NEWLINE
  {
    FlatOfLines(s);
  }

  lemma FlatFirst(row: Row, rows: seq<Row>)
    ensures Flat([row] + rows) == row + [NEWLINE] + Flat(rows)
  {
    assert ([row] + rows)[1..] == rows;
  }

  // Saving and opening gives the same rows exactly when no row holds a newline.
  lemma {:induction false} SaveOpenIff(rows: seq<Row>)
    ensures OneLineEach(rows) ==> Lines(Flat(rows)) == rows
    ensures Lines(Flat(rows)) == rows ==> OneLineEach(rows)
  {
    LinesHaveNoNewline(Flat(rows));
    if OneLineEach(rows) {
      LinesOfFlat(rows);
    }
  }
}
