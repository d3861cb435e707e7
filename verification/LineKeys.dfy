/** What the keys of the line editor mean to one another. Control keys are named by their codes. */
module LineKeys {
  import opened LineSpec

  /** The line after some keys. */
  function After(line: Line, size: nat, keys: seq<Code>): (r: Line)
    requires line.cursor <= |line.text|
    ensures r.cursor <= |r.text|
    decreases |keys|
  {
    if keys == [] then line else
    EditCursor(line, size, keys[0]);
    After(Edit(line, size, keys[0]), size, keys[1..])
  }

  lemma AfterOne(line: Line, size: nat, c: Code)
    requires line.cursor <= |line.text|
    ensures After(line, size, [c]) == Edit(line, size, c)
  {
    EditCursor(line, size, c);
    assert After(Edit(line, size, c), size, []) == Edit(line, size, c);
    assert [c][1..] == [];
  }

  lemma AfterTwo(line: Line, size: nat, a: Code, b: Code)
    requires line.cursor <= |line.text|
    ensures Edit(line, size, a).cursor <= |Edit(line, size, a).text|
    ensures After(line, size, [a, b]) == Edit(Edit(line, size, a), size, b)
  {
    EditCursor(line, size, a);
    AfterOne(Edit(line, size, a), size, b);
    assert [a, b][1..] == [b];
  }

  /** A character typed where there is room is undone by either of the two keys that erase backward. */
  lemma TypeThenErase(line: Line, size: nat, c: Code, erase: Code)
    requires line.cursor <= |line.text| < size && 32 <= c <= 126 && (erase == 8 || erase == 127)
    ensures After(line, size, [c, erase]) == line
  {
    AfterTwo(line, size, c, erase);
    var typed := Edit(line, size, c);
    assert typed.text[..line.cursor] == line.text[..line.cursor];
    assert typed.text[line.cursor + 1..] == line.text[line.cursor..];
    assert line.text == line.text[..line.cursor] + line.text[line.cursor..];
  }

  /** Erasing backward is going back and deleting. */
  lemma EraseIsBackDelete(line: Line, size: nat)
    requires 0 < line.cursor <= |line.text|
    ensures After(line, size, [2, 4]) == Edit(line, size, 8) == Edit(line, size, 127)
    ensures Edit(line, size, 8) == Line(line.text[..line.cursor - 1] + line.text[line.cursor..], line.cursor - 1)
  {
    AfterTwo(line, size, 2, 4);
  }

  /** Back and forward undo each other, except at the ends of the line, where they do nothing. */
  lemma BackAndForward(line: Line, size: nat)
    requires line.cursor <= |line.text|
    ensures After(line, size, [2, 6]) == line <==> line.cursor > 0 || line.text == []
    ensures After(line, size, [6, 2]) == line <==> line.cursor < |line.text| || line.text == []
    ensures line.cursor == 0 ==> Edit(line, size, 2) == line
    ensures line.cursor == |line.text| ==> Edit(line, size, 6) == line
  {
    AfterTwo(line, size, 2, 6);
    AfterTwo(line, size, 6, 2);
  }

  /** Going to the start is going back as often as there are characters before the cursor; and so with the end. */
  lemma {:induction false} StartByBacks(line: Line, size: nat)
    requires line.cursor <= |line.text|
    ensures Edit(line, size, 1) == After(line, size, Times(2, line.cursor))
    decreases line.cursor
  {
    if line.cursor > 0 {
      StartByBacks(Edit(line, size, 2), size);
      assert Times(2, line.cursor)[1..] == Times(2, line.cursor - 1);
    }
  }

  lemma {:induction false} EndByForwards(line: Line, size: nat)
    requires line.cursor <= |line.text|
    ensures Edit(line, size, 5) == After(line, size, Times(6, |line.text| - line.cursor))
    decreases |line.text| - line.cursor
  {
    if line.cursor < |line.text| {
      EndByForwards(Edit(line, size, 6), size);
      assert Times(6, |line.text| - line.cursor)[1..] == Times(6, |line.text| - line.cursor - 1);
    }
  }

  /** Cutting the rest off is deleting as often as there are characters behind the cursor. */
  lemma {:induction false} KillByDeletes(line: Line, size: nat)
    requires line.cursor <= |line.text|
    ensures Edit(line, size, 11) == After(line, size, Times(4, |line.text| - line.cursor))
    ensures Edit(line, size, 11) == Line(line.text[..line.cursor], line.cursor)
    decreases |line.text| - line.cursor
  {
    if line.cursor < |line.text| {
      var next := Edit(line, size, 4);
      KillByDeletes(next, size);
      assert next.text[..next.cursor] == line.text[..line.cursor];
      assert Times(4, |line.text| - line.cursor)[1..] == Times(4, |line.text| - line.cursor - 1);
    }
  }

  /** Exchanging the two characters before the cursor, and again, changes nothing. */
  lemma TwiddleTwice(line: Line, size: nat)
    requires line.cursor <= |line.text|
    ensures After(line, size, [20, 20]) == line
    ensures line.cursor >= 2 ==>
      var k, text := line.cursor, Edit(line, size, 20).text;
      && |text| == |line.text| && text[k - 2] == line.text[k - 1] && text[k - 1] == line.text[k - 2]
      && text[..k - 2] == line.text[..k - 2] && text[k..] == line.text[k..]
  {
    AfterTwo(line, size, 20, 20);
  }

  /** A string typed where there is room comes to stand before the cursor, and moves the rest along. */
  lemma {:induction false} TypedGoesIn(line: Line, size: nat, typed: seq<Code>)
    requires line.cursor <= |line.text| && |line.text| + |typed| <= size && AllPrintable(typed)
    ensures After(line, size, typed) ==
      Line(line.text[..line.cursor] + typed + line.text[line.cursor..], line.cursor + |typed|)
    decreases |typed|
  {
    if typed == [] {
      assert line.text[..line.cursor] + typed + line.text[line.cursor..] == line.text;
    } else {
      var next := Edit(line, size, typed[0]);
      assert AllPrintable(typed[1..]);
      TypedGoesIn(next, size, typed[1..]);
      assert next.text[..next.cursor] == line.text[..line.cursor] + [typed[0]];
      assert next.text[next.cursor..] == line.text[line.cursor..];
      assert typed == [typed[0]] + typed[1..];
    }
  }

  /** What takes no room is not typed: a full line, and a code that is none of these keys, leave the line alone. */
  lemma OthersDoNothing(line: Line, size: nat, c: Code)
    requires line.cursor <= |line.text|
    requires if 32 <= c <= 126 then |line.text| >= size else c !in {1, 2, 4, 5, 6, 8, 11, 20, 127}
    ensures Edit(line, size, c) == line
  {
  }
}
