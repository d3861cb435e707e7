/** The circular buffers of terminals: a bounded queue of characters in an array. */
module CircularBuffer {

  import opened CharQueue

  function Ring(buf: seq<Char>, cf: nat, cl: nat): seq<Char>
    requires cf <= |buf| && cl <= |buf|
  {
    if cf <= cl then buf[cf..cl] else buf[cf..] + buf[..cl]
  }

  /** Taking characters that lie together off the front of the ring. */
  lemma RingSkip(buf: seq<Char>, cf: nat, cl: nat, i: nat)
    requires cf < |buf| && cl < |buf| && i <= if cf <= cl then cl - cf else |buf| - cf
    ensures var q, rest := Ring(buf, cf, cl), Ring(buf, if cf + i == |buf| then 0 else cf + i, cl);
            i <= |q| && q[i..] == rest && q[..i] == buf[cf..cf + i]
  {
  }

  /** Writing characters that lie together behind the last. */
  lemma RingEnter(was: seq<Char>, now: seq<Char>, cf: nat, cl: nat, s: seq<Char>)
    requires |was| == |now| && cf < |was| && cl + |s| <= |was| && cl < |was|
    requires if cf <= cl then cf > 0 || cl + |s| < |was| else cl + |s| < cf
    requires forall k :: 0 <= k < |s| ==> now[cl + k] == s[k]
    requires forall k :: 0 <= k < |was| && !(cl <= k < cl + |s|) ==> now[k] == was[k]
    ensures Ring(now, cf, if cl + |s| == |was| then 0 else cl + |s|) == Ring(was, cf, cl) + s
  {
    assert now[cl..cl + |s|] == s;
    if cf <= cl {
      assert now[cf..cl] == was[cf..cl];
      assert now[cf..cl + |s|] == now[cf..cl] + now[cl..cl + |s|];
    } else {
      assert now[cf..] == was[cf..] && now[..cl] == was[..cl];
      assert now[..cl + |s|] == now[..cl] + now[cl..cl + |s|];
    }
  }

  lemma RingPut(buf: seq<Char>, cf: nat, cl: nat, c: Char)
    requires cf < |buf| && cl < |buf| && (if cl + 1 == |buf| then 0 else cl + 1) != cf
    ensures Ring(buf[cl := c], cf, if cl + 1 == |buf| then 0 else cl + 1) == Ring(buf, cf, cl) + [c]
  {
    RingEnter(buf, buf[cl := c], cf, cl, [c]);
  }

  /** The part of the ring before the wrap. */
  lemma RingFront(buf: seq<Char>, cf: nat, cl: nat)
    requires cf < |buf| && cl < |buf|
    ensures var n := if cl < cf then |buf| - cf else cl - cf;
            n <= |Ring(buf, cf, cl)| && forall k :: 0 <= k < n ==> Ring(buf, cf, cl)[k] == buf[cf + k]
  {
  }

  lemma RingHead(buf: seq<Char>, cf: nat, cl: nat)
    requires cf < |buf| && cl < |buf| && cf != cl
    ensures Ring(buf, cf, cl) != [] && Ring(buf, cf, cl)[0] == buf[cf]
  {
  }

  class Cirbuf {
    const buf: array<Char>
    var cf: nat               // read here
    var cl: nat               // write here
    var cc: int
    ghost var contents: seq<Char>

    /** What cb_check checks. */
    predicate Checks()
      reads this
    {
      && cf < buf.Length && cl < buf.Length
      && cc == if cf <= cl then cl - cf else buf.Length - cf + cl
    }

    /** The characters in the buffer, first to last, are those of the ring from the read to the write place. */
    ghost predicate Valid()
      reads this, buf
    {
      Checks() && contents == Ring(buf[..], cf, cl) && |contents| == cc
    }

    /** One cell always stays empty. */
    function Capacity(): int {
      buf.Length - 1
    }

    /** cb_alloc */
    constructor (size: nat)
      requires size > 0
      ensures fresh(buf) && Valid() && contents == [] && Capacity() == size - 1
    {
      buf, cf, cl, cc, contents := new Char[size], 0, 0, 0, [];
    }

    /** putc: false when the character is not entered. */
    method Putc(c: Char) returns (entered: bool)
      requires Valid()
      modifies this`cl, this`cc, this`contents, buf
      ensures Valid()
      ensures entered <==> |old(contents)| < Capacity()
      ensures contents == Put(Capacity(), old(contents), c)
    {
      var nw := cl + 1;
      if nw == buf.Length {
        nw := 0;
      }
      if nw == cf {
        return false;
      }
      RingPut(buf[..], cf, cl, c);
      buf[cl] := c;
      cl := nw;
      cc := cc + 1;
      contents := contents + [c];
      return true;
    }

    /** The length of the first contiguous run of characters, at most count; it is not zero. */
    function Run(count: nat): (i: nat)
      requires Checks()
      reads this
      ensures i <= count && i <= cc && cf + i <= buf.Length
      ensures count > 0 && cf != cl ==> i > 0
    {
      Min(if cl < cf then buf.Length - cf else cl - cf, count)
    }

    /** Take i characters that lie together off the front. */
    method Skip(i: nat)
      requires Valid() && i == Run(i)
      modifies this`cf, this`cc, this`contents
      ensures Valid()
      ensures i <= |old(contents)| && contents == old(contents)[i..]
      ensures old(contents)[..i] == buf[old(cf)..old(cf) + i]
    {
      RingSkip(buf[..], cf, cl, i);
      assert buf[..][cf..cf + i] == buf[cf..cf + i];
      cf := cf + i;
      cc := cc - i;
      if cf == buf.Length {
        cf := 0;
      }
      contents := contents[i..];
    }

    /** getc: the first character, or -1; the two are the same for a character 0xff. */
    method Getc() returns (c: int)
      requires Valid()
      modifies this`cf, this`cc, this`contents
      ensures Valid()
      ensures c == First(old(contents))
      ensures c == -1 <==> old(contents) == [] || old(contents)[0] == 0xff
      ensures contents == old(contents)[Min(1, |old(contents)|)..]
    {
      EmptyIffNot255(contents);
      if cf == cl {
        return -1;
      }
      ghost var q := contents;
      c := Signed(buf[cf]);
      RingHead(buf[..], cf, cl);
      Skip(1);
      assert q[0] == buf[old(cf)];
    }

    /** q_to_b: as many of the first count characters as there are. */
    method QToB(count: nat) returns (out: seq<Char>)
      requires Valid()
      modifies this`cf, this`cc, this`contents
      ensures Valid()
      ensures out == old(contents)[..Min(count, |old(contents)|)]
      ensures contents == old(contents)[Min(count, |old(contents)|)..]
    {
      out := [];
      ghost var q := contents;
      var left: nat := count;
      while left != 0 && cl != cf
        invariant Valid() && |out| + left == count
        invariant q == out + contents
      {
        var i := Run(left);
        Moved(out, contents, i);
        out := out + buf[cf..cf + i];
        Skip(i);
        left := left - i;
      }
      Divided(q, out, contents);
    }

    /** ndflush */
    method Ndflush(count: nat)
      requires Valid()
      modifies this`cf, this`cc, this`contents
      ensures Valid()
      ensures contents == old(contents)[Min(count, |old(contents)|)..]
    {
      ghost var q, gone := contents, [];
      var left: nat := count;
      while left != 0 && cl != cf
        invariant Valid() && |gone| + left == count
        invariant q == gone + contents
      {
        var i := Run(left);
        Moved(gone, contents, i);
        gone := gone + contents[..i];
        Skip(i);
        left := left - i;
      }
      Divided(q, gone, contents);
    }

    /** Where writing must stop: just before the first character. */
    function Limit(): (lim: nat)
      requires Checks()
      reads this
      ensures lim < buf.Length
      ensures cl == lim <==> cc == Capacity()
    {
      if cf == 0 then buf.Length - 1 else cf - 1
    }

    /** Room for characters that lie together, at most count. */
    function Gap(count: nat): (i: nat)
      requires Checks()
      reads this
      ensures i <= count && cl + i <= buf.Length && cc + i <= Capacity()
      ensures count > 0 && cl != Limit() ==> i > 0
    {
      Min(if cl <= Limit() then Limit() - cl else buf.Length - cl, count)
    }

    method Enter(s: seq<Char>)
      requires Valid() && |s| == Gap(|s|)
      modifies this`cl, this`cc, this`contents, buf
      ensures Valid() && contents == old(contents) + s
    {
      ghost var was := buf[..];
      forall k | 0 <= k < |s| {
        buf[cl + k] := s[k];
      }
      RingEnter(was, buf[..], cf, cl, s);
      cc := cc + |s|;
      cl := cl + |s|;
      if cl == buf.Length {
        cl := 0;
      }
      contents := contents + s;
    }

    /** b_to_q: enters what fits, and returns the number of characters not entered. */
    method BToQ(s: seq<Char>) returns (left: nat)
      requires Valid()
      modifies this`cl, this`cc, this`contents, buf
      ensures Valid()
      ensures left == |s| - Taken(Capacity(), old(contents), s)
      ensures contents == old(contents) + s[..Taken(Capacity(), old(contents), s)]
    {
      left := |s|;
      ghost var q := contents;
      while left != 0 && cl != Limit()
        invariant Valid() && left <= |s|
        invariant contents == q + s[..|s| - left]
      {
        var i, at := Gap(left), |s| - left;
        Enter(s[at..at + i]);
        Extended(q, s, at, i);
        left := left - i;
      }
      ExactlyTaken(Capacity(), q, s, |s| - left);
    }

    /** ndqb: the characters that lie together at the front, up to one that has a bit of the mask. */
    method Ndqb(mask: Mask) returns (n: nat)
      requires Valid()
      ensures n <= |contents|
      ensures forall k :: 0 <= k < n ==> !Meets(contents[k], mask)
      ensures n == |contents| || cf + n == buf.Length || Meets(contents[n], mask)
    {
      var lim := if cl < cf then buf.Length else cl;
      RingFront(buf[..], cf, cl);
      n := lim - cf;
      if mask != 0 {
        n := 0;
        while n < lim - cf && !Meets(buf[cf + n], mask)
          invariant n <= lim - cf
          invariant forall k :: 0 <= k < n ==> !Meets(contents[k], mask)
        {
          n := n + 1;
        }
      }
    }
  }

  // ---------------------------------------------------------------- whole runs

  method React(b: Cirbuf, op: Op) returns (answer: Answer)
    requires b.Valid()
    modifies b, b.buf
    ensures b.Valid()
    ensures answer == Expected(b.Capacity(), old(b.contents), op)
    ensures b.contents == Next(b.Capacity(), old(b.contents), op)
  {
    ghost var q := b.contents;
    match op {
      case PutOne(c) =>
        var ok := b.Putc(c);
        answer := Entered(ok);
      case GetOne =>
        var c := b.Getc();
        answer := One(c);
      case GetBlock(n) =>
        BlockIsEachGot(q, n);
        var s := b.QToB(n);
        answer := Got(s);
      case PutBlock(s) =>
        BlockIsEachPut(b.Capacity(), q, s);
        var n := b.BToQ(s);
        answer := Refused(n);
      case Flush(n) =>
        b.Ndflush(n);
        answer := Flushed;
    }
  }

  /** One operation of a script. */
  method ReactAt(b: Cirbuf, cap: nat, script: seq<Op>, k: nat) returns (answer: Answer)
    requires b.Valid() && b.Capacity() == cap && k < |script| && b.contents == After(cap, script, k)
    modifies b, b.buf
    ensures b.Valid() && b.contents == After(cap, script, k + 1)
    ensures AnswersTo(cap, script, k + 1) == AnswersTo(cap, script, k) + [answer]
  {
    answer := React(b, script[k]);
  }

  /**
   * Any run of operations on a buffer of any size: every answer is that of a queue of one character less, with the
   * block operations taken one character at a time, and no check of the buffer fails.
   */
  method Session(cap: nat, script: seq<Op>) returns (answers: seq<Answer>)
    ensures answers == AnswersTo(cap, script, |script|)
  {
    var b := new Cirbuf(cap + 1);
    answers := [];
    for k := 0 to |script|
      invariant fresh(b) && fresh(b.buf) && b.Valid() && b.Capacity() == cap
      invariant b.contents == After(cap, script, k)
      invariant answers == AnswersTo(cap, script, k)
    {
      var answer := ReactAt(b, cap, script, k);
      answers := answers + [answer];
    }
  }
}
