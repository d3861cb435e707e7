/**
 * A line being edited, the characters echoed for each key, and the row of a terminal that receives them.
 * Characters are their codes.
 */
module LineSpec {

  type Code = int

  const BLANK: Code := 32
  const BACKUP: Code := 8
  const BELL: Code := 7
  const NEWLINE: Code := 10
  const RETURN: Code := 13
  const DELETE: Code := 127

  predicate Printable(c: Code) {
    32 <= c <= 126
  }

  predicate AllPrintable(s: seq<Code>) {
    forall i :: 0 <= i < |s| ==> Printable(s[i])
  }

  // CTRL(c): the low five bits of a letter's code
  const CTRL_A: Code := 1
  const CTRL_B: Code := 2
  const CTRL_D: Code := 4
  const CTRL_E: Code := 5
  const CTRL_F: Code := 6
  const CTRL_H: Code := 8
  const CTRL_K: Code := 11
  const CTRL_R: Code := 18
  const CTRL_T: Code := 20

  // ---------------------------------------------------------------- the line

  datatype Line = Line(text: seq<Code>, cursor: nat)

  predicate Sound(line: Line, size: nat) {
    line.cursor <= |line.text| <= size && AllPrintable(line.text)
  }

  function Remove(line: Line, from: nat, n: nat): Line
    requires from + n <= |line.text|
  {
    Line(line.text[..from] + line.text[from + n..], from)
  }

  function Insert(line: Line, c: Code): Line
    requires line.cursor <= |line.text|
  {
    Line(line.text[..line.cursor] + [c] + line.text[line.cursor..], line.cursor + 1)
  }

  function Twiddle(line: Line): Line
    requires 2 <= line.cursor <= |line.text|
  {
    var k := line.cursor;
    Line(line.text[k - 2 := line.text[k - 1]][k - 1 := line.text[k - 2]], k)
  }

  predicate Ends(c: Code) {
    c == NEWLINE || c == RETURN
  }

  /** What a key does to a line that has room for size characters. */
  function Edit(line: Line, size: nat, c: Code): Line
    requires line.cursor <= |line.text|
  {
    var text, k := line.text, line.cursor;
    if c == CTRL_B then Line(text, if k > 0 then k - 1 else 0)
    else if c == CTRL_F then Line(text, if k < |text| then k + 1 else k)
    else if c == CTRL_A then Line(text, 0)
    else if c == CTRL_E then Line(text, |text|)
    else if c == CTRL_H || c == DELETE then if k > 0 then Remove(line, k - 1, 1) else line
    else if c == CTRL_D then if k < |text| then Remove(line, k, 1) else line
    else if c == CTRL_K then Remove(line, k, |text| - k)
    else if c == CTRL_T then if k >= 2 then Twiddle(line) else line
    else if Printable(c) && |text| < size then Insert(line, c)
    else line
  }

  lemma RemoveSound(line: Line, size: nat, from: nat, n: nat)
    requires Sound(line, size) && from + n <= |line.text|
    ensures Sound(Remove(line, from, n), size)
  {
  }

  lemma EditSound(line: Line, size: nat, c: Code)
    requires Sound(line, size)
    ensures Sound(Edit(line, size, c), size)
  {
    EditCursor(line, size, c);
  }

  // ---------------------------------------------------------------- the echo

  function Times(c: Code, n: nat): seq<Code> {
    seq(n, _ => c)
  }

  const REDRAW: seq<Code> := [94, 82, NEWLINE]   // "^R" and a new line

  function RemoveEcho(line: Line, from: nat, n: nat): seq<Code>
    requires from + n <= |line.text|
  {
    line.text[from + n..] + Times(BLANK, n) + Times(BACKUP, |line.text| - from)
  }

  function Echo(line: Line, size: nat, c: Code): seq<Code>
    requires line.cursor <= |line.text|
  {
    var text, k := line.text, line.cursor;
    if c == CTRL_B then if k > 0 then [BACKUP] else []
    else if c == CTRL_F then if k < |text| then [text[k]] else []
    else if c == CTRL_A then Times(BACKUP, k)
    else if c == CTRL_E then text[k..]
    else if c == CTRL_H || c == DELETE then if k > 0 then [BACKUP] + RemoveEcho(line, k - 1, 1) else []
    else if c == CTRL_D then if k < |text| then RemoveEcho(line, k, 1) else []
    else if c == CTRL_K then if k < |text| then RemoveEcho(line, k, |text| - k) else []
    else if c == CTRL_T then if k >= 2 then [BACKUP, BACKUP, text[k - 1], text[k - 2]] else []
    else if c == CTRL_R then
      if text != [] then REDRAW + text + Times(BACKUP, |text| - k) else REDRAW
    else if Ends(c) then []
    else if |text| == size then [BELL]
    else if Printable(c) then [c] + text[k..] + Times(BACKUP, |text| - k)
    else []
  }

  // ---------------------------------------------------------------- the terminal

  /**
   * The row the cursor is on, from where the line begins; cells not mentioned are blank.
   * Lost is a terminal whose cursor has moved into the prompt.
   */
  datatype Screen = Screen(cells: seq<Code>, cursor: nat) | Lost

  function Overwrite(cells: seq<Code>, at: nat, s: seq<Code>): seq<Code>
    requires at <= |cells|
  {
    cells[..at] + s + if at + |s| <= |cells| then cells[at + |s|..] else []
  }

  /** A terminal that receives one character. */
  function Put(s: Screen, c: Code): Screen {
    if s.Lost? || s.cursor > |s.cells| then Lost
    else if c == BACKUP then if s.cursor == 0 then Lost else Screen(s.cells, s.cursor - 1)
    else if c == BELL then s
    else if c == NEWLINE then Screen([], 0)
    else Screen(Overwrite(s.cells, s.cursor, [c]), s.cursor + 1)
  }

  function Feed(s: Screen, echo: seq<Code>): Screen {
    if echo == [] then s else Put(Feed(s, echo[..|echo| - 1]), echo[|echo| - 1])
  }

  /** The row holds the line, then blanks, and the cursor is at the line's. */
  predicate Shows(s: Screen, line: Line) {
    && s.Screen?
    && s.cursor == line.cursor <= |line.text| <= |s.cells|
    && (forall i :: 0 <= i < |line.text| ==> s.cells[i] == line.text[i])
    && (forall i :: |line.text| <= i < |s.cells| ==> s.cells[i] == BLANK)
  }

  /** Characters moved down over a gap. */
  lemma GapClosed(now: seq<Code>, text: seq<Code>, from: nat, n: nat)
    requires |now| == |text| - n && from + n <= |text|
    requires forall j :: 0 <= j < from ==> now[j] == text[j]
    requires forall j :: from <= j < |now| ==> now[j] == text[n..][j]
    ensures now == text[..from] + text[from + n..]
  {
    assert text[n..][from..] == text[from + n..];
  }

  /** Room made at the cursor and filled. */
  lemma RoomFilled(now: seq<Code>, line: Line, c: Code)
    requires line.cursor <= |line.text| && |now| == |line.text| + 1 && now[line.cursor] == c
    requires forall j :: 0 <= j < line.cursor ==> now[j] == line.text[j]
    requires forall j :: line.cursor < j < |now| ==> now[j] == line.text[j - 1]
    ensures now == Insert(line, c).text
  {
  }

  lemma InsertSound(line: Line, c: Code)
    requires line.cursor <= |line.text| && AllPrintable(line.text) && Printable(c)
    ensures AllPrintable(Insert(line, c).text)
  {
  }

  lemma InsertTail(line: Line, c: Code)
    requires line.cursor <= |line.text|
    ensures Insert(line, c).text[line.cursor + 1..] == line.text[line.cursor..]
  {
  }

  /** What has been given to the console after the characters of a text from one place to another. */
  function EchoOf(out: seq<Code>, text: seq<Code>, from: nat, end: nat): seq<Code>
    requires from <= end <= |text|
    decreases end
  {
    if end == from then out else EchoOf(out, text, from, end - 1) + [text[end - 1]]
  }

  lemma {:induction false} EchoOfIs(out: seq<Code>, text: seq<Code>, from: nat, end: nat)
    requires from <= end <= |text|
    ensures EchoOf(out, text, from, end) == out + text[from..end]
    decreases end
  {
    if end > from {
      EchoOfIs(out, text, from, end - 1);
      assert text[from..end] == text[from..end - 1] + [text[end - 1]];
    }
  }

  lemma EchoOfTail(out: seq<Code>, text: seq<Code>, n: nat, from: nat)
    requires from + n <= |text|
    ensures EchoOf(out, text[n..], from, |text| - n) == out + text[from + n..]
  {
    EchoOfIs(out, text[n..], from, |text| - n);
    assert text[n..][from..|text| - n] == text[from + n..];
  }

  // ---------------------------------------------------------------- whole sessions

  /** The line that the first k of some keys make, and all that has been echoed for them. */
  function EditAll(size: nat, keys: seq<Code>, k: nat): (r: Line)
    requires k <= |keys|
    ensures r.cursor <= |r.text|
  {
    if k == 0 then Line([], 0)
    else
      var line := EditAll(size, keys, k - 1);
      EditCursor(line, size, keys[k - 1]);
      Edit(line, size, keys[k - 1])
  }

  lemma EditCursor(line: Line, size: nat, c: Code)
    requires line.cursor <= |line.text|
    ensures Edit(line, size, c).cursor <= |Edit(line, size, c).text|
  {
  }

  function EchoAll(size: nat, keys: seq<Code>, k: nat): seq<Code>
    requires k <= |keys|
  {
    if k == 0 then []
    else EchoAll(size, keys, k - 1) + Echo(EditAll(size, keys, k - 1), size, keys[k - 1])
  }

  type Property = (seq<Code>, Line) -> bool

  /** A property of the echo and the line that every key keeps. */
  ghost predicate Keeps(p: Property, size: nat) {
    forall echo, line, c :: p(echo, line) && line.cursor <= |line.text| ==>
      p(echo + Echo(line, size, c), Edit(line, size, c))
  }

  /** It holds after every session if it holds of an empty line. */
  lemma {:induction false} SessionKeeps(p: Property, size: nat, keys: seq<Code>, k: nat)
    requires p([], Line([], 0)) && Keeps(p, size) && k <= |keys|
    ensures p(EchoAll(size, keys, k), EditAll(size, keys, k))
    decreases k
  {
    if k > 0 {
      SessionKeeps(p, size, keys, k - 1);
    }
  }
}
