/** After every key the terminal shows the line. */
module LineProofs {

  import opened LineSpec

  lemma {:induction false} FeedMore(s: Screen, a: seq<Code>, b: seq<Code>)
    ensures Feed(s, a + b) == Feed(Feed(s, a), b)
    decreases |b|
  {
    if b == [] {
      assert a + b == a;
    } else {
      var n := |b| - 1;
      assert (a + b)[..|a + b| - 1] == a + b[..n];
      FeedMore(s, a, b[..n]);
    }
  }

  lemma OverwriteMore(cells: seq<Code>, at: nat, text: seq<Code>, c: Code)
    requires at <= |cells|
    ensures var typed := Overwrite(cells, at, text);
            at + |text| <= |typed| && Overwrite(typed, at + |text|, [c]) == Overwrite(cells, at, text + [c])
  {
  }

  lemma {:induction false} FeedText(s: Screen, text: seq<Code>)
    requires s.Screen? && s.cursor <= |s.cells| && AllPrintable(text)
    ensures Feed(s, text) == Screen(Overwrite(s.cells, s.cursor, text), s.cursor + |text|)
    decreases |text|
  {
    if text == [] {
      assert Overwrite(s.cells, s.cursor, []) == s.cells;
    } else {
      var n := |text| - 1;
      var most := text[..n];
      FeedText(s, most);
      OverwriteMore(s.cells, s.cursor, most, text[n]);
      assert most + [text[n]] == text;
    }
  }

  lemma {:induction false} FeedBackups(s: Screen, n: nat)
    requires s.Screen? && n <= s.cursor <= |s.cells|
    ensures Feed(s, Times(BACKUP, n)) == Screen(s.cells, s.cursor - n)
    decreases n
  {
    if n > 0 {
      assert Times(BACKUP, n)[..n - 1] == Times(BACKUP, n - 1);
      FeedBackups(s, n - 1);
    }
  }

  lemma FeedOne(s: Screen, c: Code)
    ensures Feed(s, [c]) == Put(s, c)
  {
    assert [c][..0] == [];
  }

  /** Printable text and then backups over part of it. */
  lemma FeedAndReturn(s: Screen, text: seq<Code>, n: nat)
    requires s.Screen? && s.cursor <= |s.cells| && AllPrintable(text) && n <= s.cursor + |text|
    ensures Feed(s, text + Times(BACKUP, n)) == Screen(Overwrite(s.cells, s.cursor, text), s.cursor + |text| - n)
  {
    FeedMore(s, text, Times(BACKUP, n));
    FeedText(s, text);
    FeedBackups(Feed(s, text), n);
  }

  lemma RemovedCells(cells: seq<Code>, line: Line, from: nat, n: nat)
    requires from + n <= |line.text| <= |cells|
    requires forall i :: 0 <= i < |line.text| ==> cells[i] == line.text[i]
    requires forall i :: |line.text| <= i < |cells| ==> cells[i] == BLANK
    ensures Shows(Screen(Overwrite(cells, from, line.text[from + n..] + Times(BLANK, n)), from), Remove(line, from, n))
  {
  }

  /** Retyping what follows the gap, with blanks over the end, shows the line without the gap. */
  lemma RemoveShows(s: Screen, line: Line, from: nat, n: nat)
    requires line.cursor <= |line.text| && AllPrintable(line.text) && from + n <= |line.text|
    requires s.Screen? && Shows(Screen(s.cells, line.cursor), line) && s.cursor == from
    ensures Shows(Feed(s, RemoveEcho(line, from, n)), Remove(line, from, n))
  {
    var typed := line.text[from + n..] + Times(BLANK, n);
    FeedAndReturn(s, typed, |line.text| - from);
    RemovedCells(s.cells, line, from, n);
  }

  lemma InsertShows(s: Screen, line: Line, c: Code)
    requires Shows(s, line) && AllPrintable(line.text) && Printable(c)
    ensures Shows(Feed(s, [c] + line.text[line.cursor..] + Times(BACKUP, |line.text| - line.cursor)), Insert(line, c))
  {
    FeedAndReturn(s, [c] + line.text[line.cursor..], |line.text| - line.cursor);
  }

  lemma TwiddleShows(s: Screen, line: Line)
    requires Shows(s, line) && AllPrintable(line.text) && line.cursor >= 2
    ensures var k := line.cursor;
            Shows(Feed(s, [BACKUP, BACKUP, line.text[k - 1], line.text[k - 2]]), Twiddle(line))
  {
    var k := line.cursor;
    var two := [line.text[k - 1], line.text[k - 2]];
    assert [BACKUP, BACKUP, line.text[k - 1], line.text[k - 2]] == Times(BACKUP, 2) + two;
    FeedMore(s, Times(BACKUP, 2), two);
    FeedBackups(s, 2);
    FeedText(Screen(s.cells, k - 2), two);
  }

  /** Moving right by typing what is there already. */
  lemma ForwardShows(s: Screen, line: Line, to: nat)
    requires Shows(s, line) && AllPrintable(line.text) && line.cursor <= to <= |line.text|
    ensures Shows(Feed(s, line.text[line.cursor..to]), Line(line.text, to))
  {
    FeedText(s, line.text[line.cursor..to]);
  }

  lemma FreshRow(s: Screen)
    requires s.Screen? && s.cursor <= |s.cells|
    ensures Feed(s, REDRAW) == Screen([], 0)
  {
    FeedText(s, REDRAW[..2]);
    assert REDRAW[..2] + [NEWLINE] == REDRAW;
    FeedMore(s, REDRAW[..2], [NEWLINE]);
    FeedOne(Feed(s, REDRAW[..2]), NEWLINE);
  }

  lemma RedrawShows(s: Screen, line: Line)
    requires Shows(s, line) && AllPrintable(line.text)
    ensures Shows(Feed(s, REDRAW + line.text + Times(BACKUP, |line.text| - line.cursor)), line)
  {
    var rest := line.text + Times(BACKUP, |line.text| - line.cursor);
    assert REDRAW + line.text + Times(BACKUP, |line.text| - line.cursor) == REDRAW + rest;
    FreshRow(s);
    FeedMore(s, REDRAW, rest);
    FeedAndReturn(Screen([], 0), line.text, |line.text| - line.cursor);
  }

  predicate Moves(c: Code) {
    c == CTRL_B || c == CTRL_F || c == CTRL_A || c == CTRL_E
  }

  predicate Removes(c: Code) {
    c == CTRL_H || c == DELETE || c == CTRL_D || c == CTRL_K
  }

  lemma MoveShows(s: Screen, line: Line, size: nat, c: Code)
    requires Sound(line, size) && Shows(s, line) && Moves(c)
    ensures Shows(Feed(s, Echo(line, size, c)), Edit(line, size, c))
  {
    var text, k := line.text, line.cursor;
    if c == CTRL_B {
      if k > 0 { FeedOne(s, BACKUP); }
    } else if c == CTRL_F {
      if k < |text| {
        assert text[k..k + 1] == [text[k]];
        ForwardShows(s, line, k + 1);
      }
    } else if c == CTRL_A {
      FeedBackups(s, k);
    } else {
      assert text[k..|text|] == text[k..];
      ForwardShows(s, line, |text|);
    }
  }

  /** The keys that erase, by what they remove. */
  lemma ErasesHere(line: Line, size: nat)
    requires Sound(line, size) && line.cursor < |line.text|
    ensures Edit(line, size, CTRL_D) == Remove(line, line.cursor, 1)
    ensures Echo(line, size, CTRL_D) == RemoveEcho(line, line.cursor, 1)
    ensures Edit(line, size, CTRL_K) == Remove(line, line.cursor, |line.text| - line.cursor)
    ensures Echo(line, size, CTRL_K) == RemoveEcho(line, line.cursor, |line.text| - line.cursor)
  {
  }

  lemma ErasesNothing(line: Line, size: nat, c: Code)
    requires Sound(line, size) && Removes(c)
    requires if c == CTRL_D || c == CTRL_K then line.cursor == |line.text| else line.cursor == 0
    ensures Edit(line, size, c) == line && Echo(line, size, c) == []
  {
    if c == CTRL_K {
      assert Remove(line, line.cursor, 0).text == line.text;
    }
  }

  lemma ErasesBack(line: Line, size: nat, c: Code)
    requires Sound(line, size) && line.cursor > 0 && (c == CTRL_H || c == DELETE)
    ensures Edit(line, size, c) == Remove(line, line.cursor - 1, 1)
    ensures Echo(line, size, c) == [BACKUP] + RemoveEcho(line, line.cursor - 1, 1)
  {
  }

  lemma BackShows(s: Screen, line: Line)
    requires Shows(s, line) && AllPrintable(line.text) && line.cursor > 0
    ensures Shows(Feed(s, [BACKUP] + RemoveEcho(line, line.cursor - 1, 1)), Remove(line, line.cursor - 1, 1))
  {
    var k := line.cursor - 1;
    FeedMore(s, [BACKUP], RemoveEcho(line, k, 1));
    FeedOne(s, BACKUP);
    RemoveShows(Screen(s.cells, k), line, k, 1);
  }

  lemma DeleteShows(s: Screen, line: Line, size: nat, c: Code)
    requires Sound(line, size) && Shows(s, line) && Removes(c)
    ensures Shows(Feed(s, Echo(line, size, c)), Edit(line, size, c))
  {
    var k, n := line.cursor, |line.text|;
    if if c == CTRL_D || c == CTRL_K then k == n else k == 0 {
      ErasesNothing(line, size, c);
    } else if c == CTRL_D || c == CTRL_K {
      ErasesHere(line, size);
      RemoveShows(s, line, k, if c == CTRL_D then 1 else n - k);
    } else {
      ErasesBack(line, size, c);
      BackShows(s, line);
    }
  }

  lemma InPlaceShows(s: Screen, line: Line, size: nat, c: Code)
    requires Sound(line, size) && Shows(s, line) && (c == CTRL_T || c == CTRL_R)
    ensures Shows(Feed(s, Echo(line, size, c)), Edit(line, size, c))
  {
    if c == CTRL_T {
      if line.cursor >= 2 { TwiddleShows(s, line); }
    } else if line.text != [] {
      RedrawShows(s, line);
    } else {
      FreshRow(s);
    }
  }

  lemma TextShows(s: Screen, line: Line, size: nat, c: Code)
    requires Sound(line, size) && Shows(s, line) && !Moves(c) && !Removes(c) && c != CTRL_T && c != CTRL_R
    ensures Shows(Feed(s, Echo(line, size, c)), Edit(line, size, c))
  {
    if !Ends(c) && |line.text| == size {
      FeedOne(s, BELL);
    } else if Printable(c) {
      InsertShows(s, line, c);
    }
  }

  /** One key: the echo takes a terminal that shows the line to one that shows the edited line. */
  lemma EchoShows(s: Screen, line: Line, size: nat, c: Code)
    requires Sound(line, size) && Shows(s, line)
    ensures Shows(Feed(s, Echo(line, size, c)), Edit(line, size, c))
  {
    if Moves(c) {
      MoveShows(s, line, size, c);
    } else if Removes(c) {
      DeleteShows(s, line, size, c);
    } else if c == CTRL_T || c == CTRL_R {
      InPlaceShows(s, line, size, c);
    } else {
      TextShows(s, line, size, c);
    }
  }

  lemma OneMoreKey(s: Screen, echo: seq<Code>, line: Line, size: nat, c: Code)
    requires Sound(line, size) && Shows(Feed(s, echo), line)
    ensures Shows(Feed(s, echo + Echo(line, size, c)), Edit(line, size, c)) && Sound(Edit(line, size, c), size)
  {
    FeedMore(s, echo, Echo(line, size, c));
    EchoShows(Feed(s, echo), line, size, c);
    EditSound(line, size, c);
  }

  predicate Faithful(size: nat, echo: seq<Code>, line: Line) {
    Sound(line, size) && Shows(Feed(Screen([], 0), echo), line)
  }

  /** After every key of every sequence: a terminal fed with the echo shows the line the keys make. */
  lemma EverySessionShows(size: nat, keys: seq<Code>, k: nat)
    requires k <= |keys|
    ensures Faithful(size, EchoAll(size, keys, k), EditAll(size, keys, k))
  {
    var p: Property := (echo, line) => Faithful(size, echo, line);
    forall echo, line, c | p(echo, line) && line.cursor <= |line.text|
      ensures p(echo + Echo(line, size, c), Edit(line, size, c))
    {
      OneMoreKey(Screen([], 0), echo, line, size, c);
    }
    assert p([], Line([], 0));
    SessionKeeps(p, size, keys, k);
  }

  // ---------------------------------------------------------------- the console's record

  /** What the console has been given when a deletion has been echoed, call by call. */
  function RemoveLog(out: seq<Code>, line: Line, from: nat, n: nat): seq<Code>
    requires from + n <= |line.text|
  {
    EchoOf(out, line.text[n..], from, |line.text| - n) + Times(BLANK, n) + Times(BACKUP, |line.text| - from)
  }

  lemma RemoveLogged(out: seq<Code>, line: Line, from: nat, n: nat)
    requires from + n <= |line.text|
    ensures RemoveLog(out, line, from, n) == out + RemoveEcho(line, from, n)
  {
    var rest, blanks, back := line.text[from + n..], Times(BLANK, n), Times(BACKUP, |line.text| - from);
    EchoOfTail(out, line.text, n, from);
    Joined(out, rest, blanks);
    Joined(out, rest + blanks, back);
  }

  lemma BackwardLogged(out: seq<Code>, line: Line, from: nat)
    requires from + 1 <= |line.text|
    ensures RemoveLog(out + Times(BACKUP, 1), line, from, 1) == out + ([BACKUP] + RemoveEcho(line, from, 1))
  {
    RemoveLogged(out + Times(BACKUP, 1), line, from, 1);
    assert Times(BACKUP, 1) == [BACKUP];
    Joined(out, [BACKUP], RemoveEcho(line, from, 1));
  }

  lemma Joined(a: seq<Code>, b: seq<Code>, c: seq<Code>)
    ensures a + b + c == a + (b + c)
  {
  }

  /** Printable keys, as many as there is room for, make up the line. */
  lemma {:induction false} TypedStays(size: nat, keys: seq<Code>, k: nat)
    requires k <= |keys| && k <= size && AllPrintable(keys[..k])
    ensures EditAll(size, keys, k) == Line(keys[..k], k)
  {
    if k > 0 {
      assert keys[..k][..k - 1] == keys[..k - 1];
      TypedStays(size, keys, k - 1);
      assert keys[k - 1] == keys[..k][k - 1];
      assert keys[..k - 1] + [keys[k - 1]] + [] == keys[..k];
    }
  }
}
