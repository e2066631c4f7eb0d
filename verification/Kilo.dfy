// src/kilo.c: the rows of the editor and the commands that edit them.
module Kilo {
  import opened KiloText
  import opened KiloScreen

  // ------------------------------------------------------------ memory

  // realloc: the bytes beyond the old length are arbitrary.
  method Realloc<T(0)>(buf: seq<T>, n: nat) returns (r: seq<T>)
    ensures |r| == n && forall i :: 0 <= i < n && i < |buf| ==> r[i] == buf[i]
  {
    var junk: T := *;
    r := seq(n, i requires 0 <= i < n => if i < |buf| then buf[i] else junk);
  }

  // memmove(buf + dst, buf + src, n)
  function Moved<T>(buf: seq<T>, dst: nat, src: nat, n: nat): (r: seq<T>)
    requires dst + n <= |buf| && src + n <= |buf|
    ensures |r| == |buf|
    ensures forall i :: 0 <= i < |buf| ==> r[i] == if dst <= i < dst + n then buf[src + i - dst] else buf[i]
  {
    buf[..dst] + buf[src..src + n] + buf[dst + n..]
  }

  // memcpy(buf + dst, data, |data|)
  function Copied<T>(buf: seq<T>, dst: nat, data: seq<T>): (r: seq<T>)
    requires dst + |data| <= |buf|
    ensures |r| == |buf|
  {
    buf[..dst] + data + buf[dst + |data|..]
  }

  // erow: chars points to a buffer of more than size bytes, ended by a NUL.
  datatype ERow = ERow(size: nat, chars: seq<char>) {
    predicate Ok() {
      size < |chars| && chars[size] == '\0'
    }

    function Text(): Row
      requires Ok()
    {
      chars[..size]
    }
  }

  predicate AllOk(row: seq<ERow>, n: nat) {
    n <= |row| && forall i :: 0 <= i < n ==> row[i].Ok()
  }

  function Texts(row: seq<ERow>, n: nat): (r: seq<Row>)
    requires AllOk(row, n)
    ensures |r| == n
  {
    seq(n, i requires 0 <= i < n => row[i].Text())
  }

  // What fopen finds: a file, ENOENT, or another error.
  datatype File = Contents(text: seq<char>) | Missing | Denied

  // struct editorConfig
  class Editor {
    var cx: int
    var cy: int
    var rowoff: int
    var coloff: int
    var screenrows: int
    var screencols: int
    var numrows: nat
    var row: seq<ERow>
    var dirty: int

    // initEditor
    constructor (rows: int, cols: int)
      ensures Valid() && State() == KiloScreen.Empty(rows - 2, cols) && dirty == 0
    {
      cx, cy, rowoff, coloff := 0, 0, 0, 0;
      numrows, row, dirty := 0, [], 0;
      screenrows, screencols := rows - 2, cols;
    }

    predicate Valid()
      reads this
    {
      AllOk(row, numrows)
    }

    function Rows(): (r: seq<Row>)
      requires Valid()
      reads this
      ensures |r| == numrows
    {
      Texts(row, numrows)
    }

    function State(): (s: Screen)
      requires Valid()
      reads this
      ensures s.rows == Rows()
    {
      Screen(Rows(), cx, cy, rowoff, coloff, screenrows, screencols)
    }

    // ---------------------------------------------------------- rows

    method InsertRow(at: nat, s: seq<char>, len: nat)
      requires Valid() && len < |s| && s[len] == '\0'
      modifies this`row, this`numrows, this`dirty
      ensures Valid()
      ensures at > old(numrows) ==> Rows() == old(Rows()) && dirty == old(dirty)
      ensures at <= old(numrows) ==> dirty == old(dirty) + 1
      ensures at <= old(numrows) ==> Rows() == old(Rows())[..at] + [s[..len]] + old(Rows())[at..]
    {
      if at > numrows {
        return;
      }
      hide Texts, AllOk;
      var r := ERow(len, s[..len + 1]);
      assert r.Text() == s[..len];
      ghost var was := row;
      RowCount();
      row := Realloc(row, numrows + 1);
      if at != numrows {
        Inserted(was, numrows, row, at, r);
        row := Moved(row, at + 1, at, numrows - at);
      } else {
        Appended(was, numrows, row, r);
      }
      row := row[at := r];
      numrows := numrows + 1;
      dirty := dirty + 1;
    }

    method DelRow(at: nat)
      requires Valid()
      modifies this`row, this`numrows, this`dirty
      ensures Valid()
      ensures at >= old(numrows) ==> Rows() == old(Rows()) && dirty == old(dirty)
      ensures at < old(numrows) ==> dirty == old(dirty) + 1
      ensures at < old(numrows) ==> Rows() == old(Rows())[..at] + old(Rows())[at + 1..]
    {
      if at >= numrows {
        return;
      }
      ghost var was := row;
      row := Moved(row, at, at + 1, numrows - at - 1);
      numrows := numrows - 1;
      dirty := dirty + 1;
      Deleted(was, numrows + 1, row, at);
    }

    method RowInsertChar(i: nat, at: nat, c: char)
      requires Valid() && i < numrows
      modifies this`row, this`dirty
      ensures Valid() && dirty == old(dirty) + 1
      ensures Rows() == old(Rows())[i := TypedRow(old(Rows())[i], at, c)]
    {
      ghost var was := row;
      var r := InsertInto(row[i], at, c);
      row := row[i := r];
      Replaced(was, numrows, i, r);
      dirty := dirty + 1;
    }

    // The buffer work of editorRowInsertChar.
    static method InsertInto(r: ERow, at: nat, c: char) returns (q: ERow)
      requires r.Ok()
      ensures q.Ok() && q.Text() == TypedRow(r.Text(), at, c)
    {
      var chars, size := r.chars, r.size;
      ghost var text := r.Text();
      if at > size {
        var padlen := at - size;
        chars := Realloc(chars, size + padlen + 2);
        chars := Copied(chars, size, Blank(padlen));
        chars := chars[size + padlen + 1 := '\0'];
        size := size + padlen + 1;
        assert chars[..at] == text + Blank(padlen);
      } else {
        chars := Realloc(chars, size + 2);
        chars := Moved(chars, at + 1, at, size - at + 1);
        size := size + 1;
        assert chars[..at] == text[..at] && chars[at + 1..size] == text[at..];
      }
      chars := chars[at := c];
      q := ERow(size, chars);
    }

    method RowAppendString(i: nat, s: seq<char>, len: nat)
      requires Valid() && i < numrows && len <= |s|
      modifies this`row, this`dirty
      ensures Valid() && dirty == old(dirty) + 1
      ensures Rows() == old(Rows())[i := old(Rows())[i] + s[..len]]
    {
      ghost var was := row;
      var chars, size := row[i].chars, row[i].size;
      ghost var text := chars[..size];
      chars := Realloc(chars, size + len + 1);
      chars := Copied(chars, size, s[..len]);
      size := size + len;
      chars := chars[size := '\0'];
      assert chars[..size] == text + s[..len];
      row := row[i := ERow(size, chars)];
      Replaced(was, numrows, i, ERow(size, chars));
      dirty := dirty + 1;
    }

    method RowDelChar(i: nat, at: nat)
      requires Valid() && i < numrows
      modifies this`row, this`dirty
      ensures Valid()
      ensures at >= |old(Rows())[i]| ==> Rows() == old(Rows()) && dirty == old(dirty)
      ensures at < |old(Rows())[i]| ==> dirty == old(dirty) + 1
      ensures at < |old(Rows())[i]| ==>
        Rows() == old(Rows())[i := old(Rows())[i][..at] + old(Rows())[i][at + 1..]]
    {
      var chars, size := row[i].chars, row[i].size;
      if size <= at {
        return;
      }
      ghost var was := row;
      MovedLeft(chars, at, size);
      chars := Moved(chars, at, at + 1, size - at);
      size := size - 1;
      row := row[i := ERow(size, chars)];
      Replaced(was, numrows, i, ERow(size, chars));
      dirty := dirty + 1;
    }

    lemma RowCount()
      requires Valid()
      ensures numrows <= |row|
    {
    }

    // ---------------------------------------------------------- commands

    method InsertChar(c: char)
      requires Valid() && State().Addressable()
      modifies this`row, this`numrows, this`dirty, this`cx, this`coloff
      ensures Valid() && State() == Apply(old(State()), Type(c)) && dirty > old(dirty)
    {
      hide AllOk, Texts;
      var filerow := rowoff + cy;
      var filecol := coloff + cx;
      if filerow >= numrows {
        AddRows(filerow);
      }
      RowInsertChar(filerow, filecol, c);
      if cx == screencols - 1 {
        coloff := coloff + 1;
      } else {
        cx := cx + 1;
      }
      dirty := dirty + 1;
    }

    // The empty rows editorInsertChar adds.
    method AddRows(filerow: nat)
      requires Valid() && filerow >= numrows
      modifies this`row, this`numrows, this`dirty
      ensures Valid() && Rows() == Grown(old(Rows()), filerow) && dirty > old(dirty)
    {
      ghost var d, rows, n := dirty, Rows(), numrows;
      while numrows <= filerow
        invariant Valid() && n <= numrows <= filerow + 1 && dirty == d + numrows - n
        invariant Rows() == rows + seq(numrows - n, _ => [])
      {
        ghost var before := Rows();
        InsertRow(numrows, "\0", 0);
        assert Rows() == before + [[]];
      }
    }

    method InsertNewline()
      requires Valid() && State().Addressable()
      modifies this`row, this`numrows, this`dirty, this`cx, this`coloff, this`cy, this`rowoff
      ensures Valid() && State() == Apply(old(State()), Newline)
      ensures dirty >= old(dirty) && (dirty == old(dirty) <==> old(State().FileRow()) > old(numrows))
    {
      hide AllOk, Texts;
      var filerow := rowoff + cy;
      var filecol := coloff + cx;
      if filerow > numrows {
        return;
      }
      if filerow == numrows {
        ghost var rows := Rows();
        InsertRow(filerow, "\0", 0);
        assert Rows() == rows + [[]];
      } else {
        BreakRow(filerow, filecol);
      }
      if cy == screenrows - 1 {
        rowoff := rowoff + 1;
      } else {
        cy := cy + 1;
      }
      cx := 0;
      coloff := 0;
    }

    // editorInsertNewline on an existing row
    method BreakRow(filerow: nat, col: nat)
      requires Valid() && filerow < numrows
      modifies this`row, this`numrows, this`dirty
      ensures Valid() && Rows() == Broken(old(Rows()), filerow, col) && dirty > old(dirty)
    {
      var filecol := col;
      var r := row[filerow];
      if filecol >= r.size {
        filecol := r.size;
      }
      if filecol == 0 {
        InsertRow(filerow, "\0", 0);
      } else {
        ghost var rows := Rows();
        assert r.chars[filecol..][..r.size - filecol] == rows[filerow][filecol..];
        InsertRow(filerow + 1, r.chars[filecol..], r.size - filecol);
        ghost var was := row;
        var top := row[filerow];
        assert top.Text() == Rows()[filerow] == rows[filerow];
        top := ERow(filecol, top.chars[filecol := '\0']);
        assert top.Text() == rows[filerow][..filecol];
        row := row[filerow := top];
        Replaced(was, numrows, filerow, top);
      }
    }

    method DelChar()
      requires Valid() && State().Addressable()
      modifies this`row, this`numrows, this`dirty, this`cx, this`coloff, this`cy, this`rowoff
      ensures Valid() && State() == Apply(old(State()), Backspace)
      ensures dirty == old(dirty) <==>
        old(State().FileRow() >= numrows || (State().FileRow() == 0 && State().FileCol() == 0))
    {
      hide AllOk, Texts, Typed, Broken, Erased;
      var filerow := rowoff + cy;
      var filecol := coloff + cx;
      if filerow >= numrows || (filecol == 0 && filerow == 0) {
        return;
      }
      if filecol == 0 {
        RowAt(filerow - 1);
        filecol := row[filerow - 1].size;
        JoinRows(filerow);
        if cy == 0 {
          rowoff := rowoff - 1;
        } else {
          cy := cy - 1;
        }
        cx := filecol;
        if cx >= screencols {
          var shift := screencols - cx + 1;
          cx := cx - shift;
          coloff := coloff + shift;
        }
      } else {
        EraseInRow(filerow, filecol);
        if cx == 0 && coloff != 0 {
          coloff := coloff - 1;
        } else {
          cx := cx - 1;
        }
      }
      dirty := dirty + 1;
    }

    lemma RowAt(i: nat)
      requires Valid() && i < numrows
      ensures i < |row| && row[i].Ok() && row[i].Text() == Rows()[i] && row[i].size == |Rows()[i]|
    {
    }

    // The row work of editorDelChar at column 0.
    method JoinRows(filerow: nat)
      requires Valid() && 0 < filerow < numrows
      modifies this`row, this`numrows, this`dirty
      ensures Valid() && Rows() == Erased(old(Rows()), filerow, 0) && dirty > old(dirty)
    {
      assert row[filerow].Text() == Rows()[filerow];
      RowAppendString(filerow - 1, row[filerow].chars, row[filerow].size);
      DelRow(filerow);
    }

    // ... and elsewhere
    method EraseInRow(filerow: nat, filecol: nat)
      requires Valid() && filerow < numrows && filecol > 0
      modifies this`row, this`dirty
      ensures Valid() && Rows() == Erased(old(Rows()), filerow, filecol) && dirty >= old(dirty)
    {
      hide AllOk, Texts;
      RowDelChar(filerow, filecol - 1);
    }

    // ---------------------------------------------------------- the flat string

    method RowsToString() returns (buf: array<char>, buflen: nat)
      requires Valid()
      ensures fresh(buf) && buflen == |Flat(Rows())| && buf.Length == buflen + 1
      ensures buf[..buflen] == Flat(Rows()) && buf[buflen] == '\0'
    {
      var totlen := 0;
      for j := 0 to numrows
        invariant totlen == |Flat(Rows()[..j])|
      {
        FlatNext(Rows(), j);
        totlen := totlen + row[j].size + 1;
      }
      assert Rows()[..numrows] == Rows();
      buflen := totlen;
      totlen := totlen + 1;
      buf := new char[totlen];
      var p := 0;
      for j := 0 to numrows
        invariant p == |Flat(Rows()[..j])| <= buflen && buf[..p] == Flat(Rows()[..j])
      {
        FlatNext(Rows(), j);
        FlatPrefix(Rows(), j + 1);
        p := AppendRow(buf, p, row[j]);
      }
      buf[p] := '\0';
    }

    // One memcpy of editorRowsToString and the newline after it.
    static method AppendRow(buf: array<char>, p: nat, r: ERow) returns (q: nat)
      requires r.Ok() && p + r.size + 1 < buf.Length
      modifies buf
      ensures q == p + r.size + 1 && buf[..q] == old(buf[..p]) + r.Text() + [NEWLINE]
    {
      q := p;
      forall k | 0 <= k < r.size {
        buf[q + k] := r.chars[k];
      }
      q := q + r.size;
      buf[q] := NEWLINE;
      q := q + 1;
    }

    // ---------------------------------------------------------- files

    // editorOpen; exited where the source exits
    method Open(file: File) returns (rc: int, exited: bool)
      requires Valid()
      modifies this`row, this`numrows, this`dirty
      ensures Valid() && dirty == 0 && (exited <==> file == Denied)
      ensures file.Contents? ==> rc == 0 && Rows() == old(Rows()) + Lines(file.text)
      ensures !file.Contents? ==> rc == 1 && Rows() == old(Rows())
    {
      dirty := 0;
      if !file.Contents? {
        return 1, file == Denied;
      }
      ReadLines(file.text);
      dirty := 0;
      return 0, false;
    }

    method ReadLines(content: seq<char>)
      requires Valid()
      modifies this`row, this`numrows, this`dirty
      ensures Valid() && Rows() == old(Rows()) + Lines(content)
    {
      var rest := content;
      ghost var rows := Rows();
      while rest != []
        invariant Valid() && Rows() + Lines(rest) == rows + Lines(content)
        decreases |rest|
      {
        var linelen := LineEnd(rest);
        var line := rest[..linelen] + "\0";
        ghost var chopped := Chop(rest[..linelen]);
        if linelen != 0 && (line[linelen - 1] == '\n' || line[linelen - 1] == '\r') {
          linelen := linelen - 1;
          line := line[linelen := '\0'];
        }
        assert line[..linelen] == chopped;
        ghost var before := Rows();
        InsertRow(numrows, line, linelen);
        assert Rows() == before + [chopped];
        Regroup(before, chopped, Lines(rest[LineEnd(rest)..]));
        rest := rest[LineEnd(rest)..];
      }
    }
  }

  // ------------------------------------------------------------ rows and their texts

  lemma Regroup(a: seq<Row>, x: Row, b: seq<Row>)
    ensures a + ([x] + b) == a + [x] + b
  {
  }

  lemma MovedLeft(buf: seq<char>, at: nat, size: nat)
    requires at < size < |buf|
    ensures Moved(buf, at, at + 1, size - at)[..size - 1] == buf[..size][..at] + buf[..size][at + 1..]
    ensures Moved(buf, at, at + 1, size - at)[size - 1] == buf[size]
  {
  }

  // row is was with room for one more.
  predicate Roomier(was: seq<ERow>, n: nat, row: seq<ERow>) {
    |row| == n + 1 && n <= |was| && forall i :: 0 <= i < n ==> row[i] == was[i]
  }

  lemma Inserted(was: seq<ERow>, n: nat, row: seq<ERow>, at: nat, r: ERow)
    requires AllOk(was, n) && at < n && Roomier(was, n, row) && r.Ok()
    ensures var row' := Moved(row, at + 1, at, n - at)[at := r];
      AllOk(row', n + 1) && Texts(row', n + 1) == Texts(was, n)[..at] + [r.Text()] + Texts(was, n)[at..]
  {
  }

  lemma Appended(was: seq<ERow>, n: nat, row: seq<ERow>, r: ERow)
    requires AllOk(was, n) && Roomier(was, n, row) && r.Ok()
    ensures AllOk(row[n := r], n + 1)
    ensures Texts(row[n := r], n + 1) == Texts(was, n)[..n] + [r.Text()] + Texts(was, n)[n..]
  {
  }

  lemma Deleted(was: seq<ERow>, n: nat, row: seq<ERow>, at: nat)
    requires AllOk(was, n) && at < n && |row| >= n - 1
    requires forall i :: 0 <= i < at ==> row[i] == was[i]
    requires forall i :: at <= i < n - 1 ==> row[i] == was[i + 1]
    ensures AllOk(row, n - 1)
    ensures Texts(row, n - 1) == Texts(was, n)[..at] + Texts(was, n)[at + 1..]
  {
  }

  lemma Replaced(was: seq<ERow>, n: nat, i: nat, r: ERow)
    requires AllOk(was, n) && i < n && r.Ok()
    ensures AllOk(was[i := r], n) && Texts(was[i := r], n) == Texts(was, n)[i := r.Text()]
  {
  }

  lemma FlatNext(rows: seq<Row>, j: nat)
    requires j < |rows|
    ensures Flat(rows[..j + 1]) == Flat(rows[..j]) + rows[j] + [NEWLINE]
  {
    assert rows[..j + 1] == rows[..j] + [rows[j]];
    FlatConcat(rows[..j], [rows[j]]);
    FlatOne(rows[j]);
  }

  lemma FlatPrefix(rows: seq<Row>, j: nat)
    requires j <= |rows|
    ensures |Flat(rows[..j])| <= |Flat(rows)|
  {
    assert rows == rows[..j] + rows[j..];
    FlatConcat(rows[..j], rows[j..]);
  }
}
