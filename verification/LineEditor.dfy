/** The debugger's line editor: a buffer changed in place, with every change echoed. */
module LineEditor {

  import opened LineSpec
  import opened LineProofs

  class Editor {
    const buf: array<Code>
    const size: nat
    var lc: nat               // current character
    var le: nat               // one past the last character
    var out: seq<Code>        // characters given to the console

    ghost predicate Valid()
      reads this, buf
    {
      buf.Length >= size && le <= size && Sound(Text(), size)
    }

    ghost function Text(): Line
      requires le <= buf.Length
      reads this, buf
    {
      Line(buf[..le], lc)
    }

    constructor (lstart: array<Code>, lsize: nat)
      requires lstart.Length >= lsize
      ensures buf == lstart && size == lsize
      ensures Valid() && Text() == Line([], 0) && out == []
    {
      buf, size, lc, le, out := lstart, lsize, 0, 0, [];
    }

    // ---------------------------------------------------------------- output

    method PutString(from: nat, count: nat)
      requires from + count <= buf.Length
      modifies this`out
      ensures out == old(out) + buf[from..from + count]
    {
      for k := 0 to count
        invariant out == old(out) + buf[from..from + k]
      {
        out := out + [buf[from + k]];
      }
    }

    method PutNChars(c: Code, count: nat)
      modifies this`out
      ensures out == old(out) + Times(c, count)
    {
      for k := 0 to count
        invariant out == old(out) + Times(c, k)
      {
        out := out + [c];
      }
    }

    // ---------------------------------------------------------------- changes

    /** The loop of db_delete: close the gap, echoing what moves. */
    method Close(n: nat, ghost text: seq<Code>, ghost after: seq<Code>)
      requires lc + n <= le <= buf.Length && text == buf[..le] && after == text[n..]
      modifies this`out, buf
      ensures forall j :: 0 <= j < lc ==> buf[j] == text[j]
      ensures forall j :: lc <= j < le - n ==> buf[j] == after[j]
      ensures out == EchoOf(old(out), after, lc, le - n)
    {
      var p := lc;
      while p < le - n
        invariant lc <= p <= le - n
        invariant forall j :: 0 <= j < lc ==> buf[j] == text[j]
        invariant forall j :: lc <= j < p ==> buf[j] == after[j]
        invariant forall j :: p <= j < le ==> buf[j] == text[j]
        invariant out == EchoOf(old(out), after, lc, p)
      {
        var c := buf[p + n];
        assert c == after[p];
        buf[p] := c;
        out := out + [c];
        p := p + 1;
      }
    }

    /** The same: the text without the gap, and its end echoed. */
    method CloseGap(n: nat, ghost line: Line)
      requires lc + n <= le <= buf.Length && line.text == buf[..le]
      modifies this`out, buf
      ensures buf[..le - n] == Remove(line, lc, n).text
      ensures out == EchoOf(old(out), line.text[n..], lc, le - n)
    {
      Close(n, line.text, line.text[n..]);
      GapClosed(buf[..le - n], line.text, lc, n);
    }

    /** db_delete from the current character on. */
    method DeleteHere(n: nat, ghost line: Line)
      requires lc + n <= le <= buf.Length && line.text == buf[..le]
      modifies this`out, this`le, buf
      ensures le == old(le) - n
      ensures buf[..le] == Remove(line, lc, n).text
      ensures out == RemoveLog(old(out), line, lc, n)
    {
      CloseGap(n, line);
      PutNChars(BLANK, n);
      PutNChars(BACKUP, le - lc);
      le := le - n;
    }

    /** db_delete */
    method Delete(n: nat, backward: bool)
      requires Valid() && (if backward then n <= lc else lc + n <= le)
      modifies this, buf
      ensures Valid()
      ensures Text() == Remove(old(Text()), if backward then old(lc) - n else old(lc), n)
      ensures out == RemoveLog(if backward then old(out) + Times(BACKUP, n) else old(out), old(Text()),
                               if backward then old(lc) - n else old(lc), n)
    {
      ghost var line := Text();
      RemoveSound(line, size, if backward then lc - n else lc, n);
      if backward {
        lc := lc - n;
        PutNChars(BACKUP, n);
      }
      DeleteHere(n, line);
    }

    /** The keys that erase from the current character on. */
    method EraseHere(c: Code)
      requires Valid() && (c == CTRL_D || c == CTRL_K)
      modifies this, buf
      ensures Valid() && Text() == Edit(old(Text()), size, c)
      ensures out == old(out) + Echo(old(Text()), size, c)
    {
      ghost var line := Text();
      if lc < le {
        var n := if c == CTRL_D then 1 else le - lc;
        ErasesHere(line, size);
        RemoveLogged(out, line, lc, n);
        Delete(n, false);
      } else {
        ErasesNothing(line, size, c);
      }
    }

    method EraseBack(c: Code)
      requires Valid() && (c == CTRL_H || c == DELETE)
      modifies this, buf
      ensures Valid() && Text() == Edit(old(Text()), size, c)
      ensures out == old(out) + Echo(old(Text()), size, c)
    {
      ghost var line := Text();
      if lc > 0 {
        ErasesBack(line, size, c);
        BackwardLogged(out, line, lc - 1);
        Delete(1, true);
      } else {
        ErasesNothing(line, size, c);
      }
    }

    /** The loop of an insertion: make room. */
    method MakeRoom(ghost text: seq<Code>)
      requires lc <= le < buf.Length && text == buf[..le]
      modifies buf
      ensures forall j :: 0 <= j < lc ==> buf[j] == text[j]
      ensures forall j :: lc < j <= le ==> buf[j] == text[j - 1]
    {
      var p := le;
      while p > lc
        invariant lc <= p <= le
        invariant forall j :: 0 <= j < p ==> buf[j] == text[j]
        invariant forall j :: p < j <= le ==> buf[j] == text[j - 1]
      {
        buf[p] := buf[p - 1];
        p := p - 1;
      }
    }

    /** The character goes in at its place. */
    method PutIn(c: Code, ghost line: Line)
      requires lc <= le < buf.Length && line == Text()
      modifies this`lc, this`le, buf
      ensures lc == old(lc) + 1 && le == old(le) + 1
      ensures buf[..le] == Insert(line, c).text
    {
      MakeRoom(line.text);
      buf[lc] := c;
      RoomFilled(buf[..le + 1], line, c);
      lc := lc + 1;
      le := le + 1;
    }

    /** The default case of db_inputchar, with room in the buffer. */
    method Put(c: Code)
      requires Valid() && le < size && Printable(c)
      modifies this, buf
      ensures Valid() && Text() == Insert(old(Text()), c)
      ensures out == old(out) + [c] + old(Text()).text[old(lc)..] + Times(BACKUP, old(le - lc))
    {
      ghost var line := Text();
      InsertSound(line, c);
      PutIn(c, line);
      InsertTail(line, c);
      assert buf[lc..le] == buf[..le][lc..];
      out := out + [c];
      PutString(lc, le - lc);
      PutNChars(BACKUP, le - lc);
    }

    method ToStart()
      requires Valid()
      modifies this`lc, this`out
      ensures lc == 0 && out == old(out) + Times(BACKUP, old(lc))
    {
      while lc > 0
        invariant lc <= old(lc)
        invariant out == old(out) + Times(BACKUP, old(lc) - lc)
      {
        out := out + [BACKUP];
        lc := lc - 1;
      }
    }

    method ToEnd()
      requires Valid()
      modifies this`lc, this`out
      ensures lc == le && out == old(out) + buf[old(lc)..le]
    {
      while lc < le
        invariant old(lc) <= lc <= le
        invariant out == old(out) + buf[old(lc)..lc]
      {
        out := out + [buf[lc]];
        lc := lc + 1;
      }
    }

    method Swap()
      requires Valid() && lc >= 2
      modifies buf, this`out
      ensures Valid() && Text() == Twiddle(old(Text()))
      ensures out == old(out) + [BACKUP, BACKUP, old(Text()).text[lc - 1], old(Text()).text[lc - 2]]
    {
      var c := buf[lc - 2];
      buf[lc - 2] := buf[lc - 1];
      buf[lc - 1] := c;
      out := out + [BACKUP] + [BACKUP] + [buf[lc - 2]] + [buf[lc - 1]];
      assert buf[..le] == Twiddle(old(Text())).text;
    }

    method Redraw()
      requires Valid()
      modifies this`out
      ensures out == old(out) + if le > 0 then REDRAW + buf[..le] + Times(BACKUP, le - lc) else REDRAW
    {
      out := out + REDRAW;
      if le > 0 {
        PutString(0, le);
        PutNChars(BACKUP, le - lc);
        Joined(old(out), REDRAW, buf[..le]);
        Joined(old(out), REDRAW + buf[..le], Times(BACKUP, le - lc));
      }
    }

    /** The keys that only move. */
    method Move(c: Code)
      requires Valid() && Moves(c)
      modifies this`lc, this`out
      ensures Valid() && Text() == Edit(old(Text()), size, c)
      ensures out == old(out) + Echo(old(Text()), size, c)
    {
      if c == CTRL_B {
        if lc > 0 {
          out := out + [BACKUP];
          lc := lc - 1;
        }
      } else if c == CTRL_F {
        if lc < le {
          out := out + [buf[lc]];
          lc := lc + 1;
        }
      } else if c == CTRL_A {
        ToStart();
      } else {
        ToEnd();
      }
    }

    /** The keys that are not movements, erasures or the end of the line. */
    method Other(c: Code)
      requires Valid() && !Moves(c) && !Removes(c) && !Ends(c)
      modifies this, buf
      ensures Valid() && Text() == Edit(old(Text()), size, c)
      ensures out == old(out) + Echo(old(Text()), size, c)
    {
      if c == CTRL_T {
        if lc >= 2 {
          Swap();
        }
      } else if c == CTRL_R {
        Redraw();
      } else if le == size {
        out := out + [BELL];
      } else if Printable(c) {
        ghost var line, before := Text(), out;
        Put(c);
        Joined(before, [c], line.text[line.cursor..]);
        Joined(before, [c] + line.text[line.cursor..], Times(BACKUP, |line.text| - line.cursor));
      }
    }

    /** The line is read, with its end if that was stored inside the buffer. */
    ghost predicate LineRead(text: seq<Code>, end: Code, inside: bool)
      reads this, buf
    {
      && |text| <= size <= buf.Length && le == |text| + 1
      && buf[..|text|] == text
      && (inside <==> |text| < buf.Length)
      && (inside ==> buf[|text|] == end)
    }

    /** A store at the end of the line, if the buffer goes that far. */
    method Append(c: Code) returns (inside: bool)
      requires le <= size <= buf.Length
      modifies this`le, buf
      ensures LineRead(old(buf[..le]), c, inside)
    {
      inside := le < buf.Length;
      if inside {
        buf[le] := c;
      }
      le := le + 1;
    }

    /**
     * db_inputchar: the buffer becomes the edited line, and its echo goes out; true at the end of the line. Its end is
     * stored behind the line without a look at the size of the buffer.
     */
    method InputChar(c: Code) returns (ended: bool, inside: bool)
      requires Valid()
      modifies this, buf
      ensures ended <==> Ends(c)
      ensures !ended ==> Valid() && Text() == Edit(old(Text()), size, c)
      ensures !ended ==> out == old(out) + Echo(old(Text()), size, c)
      ensures ended ==> out == old(out) && LineRead(old(Text()).text, c, inside)
    {
      ended, inside := Ends(c), true;
      if Moves(c) {
        Move(c);
      } else if c == CTRL_D || c == CTRL_K {
        EraseHere(c);
      } else if c == CTRL_H || c == DELETE {
        EraseBack(c);
      } else if c == NEWLINE || c == RETURN {
        inside := Append(c);
      } else {
        Other(c);
      }
    }
  }

  /** Only the last of some keys ends the line. */
  predicate EndsWithLast(keys: seq<Code>) {
    keys != [] && forall i :: 0 <= i < |keys| ==> (Ends(keys[i]) <==> i == |keys| - 1)
  }

  /** The loop of db_readline: the keys up to the one that ends the line. */
  method ReadKeys(e: Editor, keys: seq<Code>) returns (inside: bool)
    requires e.Valid() && e.Text() == Line([], 0) && e.out == [] && EndsWithLast(keys)
    modifies e, e.buf
    ensures e.out == EchoAll(e.size, keys, |keys| - 1)
    ensures e.LineRead(EditAll(e.size, keys, |keys| - 1).text, keys[|keys| - 1], inside)
  {
    var k, ended := 0, false;
    inside := true;
    while !ended
      invariant k <= |keys| && (ended <==> k == |keys|)
      invariant !ended ==> e.Valid() && e.Text() == EditAll(e.size, keys, k) && e.out == EchoAll(e.size, keys, k)
      invariant ended ==> e.out == EchoAll(e.size, keys, |keys| - 1)
      invariant ended ==> e.LineRead(EditAll(e.size, keys, |keys| - 1).text, keys[|keys| - 1], inside)
      decreases |keys| - k
    {
      ended, inside := e.InputChar(keys[k]);
      k := k + 1;
    }
  }

  /**
   * db_readline, on a console that will supply these keys, the last of which ends the line: the buffer gets the
   * edited line, its end and a terminator, and the console the echo that makes it show the line. The last two stores
   * stay inside the buffer exactly when the line leaves room for them; in a buffer of the stated size, when it is two
   * characters shorter.
   */
  method ReadLine(lstart: array<Code>, lsize: nat, keys: seq<Code>) returns (length: nat, out: seq<Code>, inside: bool)
    requires lstart.Length >= lsize && EndsWithLast(keys)
    modifies lstart
    ensures length == |EditAll(lsize, keys, |keys| - 1).text| + 1 <= lsize + 1
    ensures inside <==> |EditAll(lsize, keys, |keys| - 1).text| + 2 <= lstart.Length
    ensures lstart[..length - 1] == EditAll(lsize, keys, |keys| - 1).text
    ensures inside ==> lstart[length - 1] == keys[|keys| - 1] && lstart[length] == 0
    ensures out == EchoAll(lsize, keys, |keys| - 1)
  {
    var e := new Editor(lstart, lsize);
    inside := ReadKeys(e, keys);
    length, out := e.le, e.out;
    if length < lstart.Length {
      lstart[length] := 0;
    } else {
      inside := false;
    }
  }

  /** A line that fills a buffer of the stated size: its end and its terminator go behind the buffer. */
  lemma FullLineOverruns(lsize: nat, keys: seq<Code>)
    requires |keys| == lsize + 1 && AllPrintable(keys[..lsize])
    ensures EditAll(lsize, keys, lsize).text == keys[..lsize]
    ensures !(|EditAll(lsize, keys, lsize).text| + 2 <= lsize)
  {
    TypedStays(lsize, keys, lsize);
  }
}
