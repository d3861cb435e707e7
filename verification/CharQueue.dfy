/** A bounded queue of characters, by single characters and by blocks. */
module CharQueue {

  type Char = c: nat | c < 0x100

  /** A character as the integer it is returned as: characters are signed. */
  function Signed(c: Char): int {
    if c < 0x80 then c else c - 0x100
  }

  /** An int of the caller's, as the 32 bits it has. */
  type Mask = m: nat | m < 0x1_0000_0000

  /** A character as an int: its upper bits repeat its sign. */
  function Widened(c: Char): nat {
    if c < 0x80 then c else c + 0xffff_ff00
  }

  /** A character has a bit of a mask. */
  predicate Meets(c: Char, mask: Mask) {
    HasBit(Widened(c), mask)
  }

  /** Two numbers have a bit in common. */
  predicate HasBit(c: nat, mask: nat) {
    c > 0 && mask > 0 && ((c % 2 == 1 && mask % 2 == 1) || HasBit(c / 2, mask / 2))
  }

  /** What getc returns for a queue: -1 for an empty one. */
  function First(q: seq<Char>): int {
    if q == [] then -1 else Signed(q[0])
  }

  /** So a caller can tell that there was no character exactly when the next one is not 0xff. */
  lemma EmptyIffNot255(q: seq<Char>)
    ensures First(q) == -1 <==> q == [] || q[0] == 0xff
  {
  }

  /** A queue that holds at most cap characters takes what fits. */
  function Taken(cap: nat, q: seq<Char>, s: seq<Char>): nat {
    if |q| + |s| <= cap then |s| else if |q| <= cap then cap - |q| else 0
  }

  function Min(a: nat, b: nat): nat {
    if a <= b then a else b
  }

  /** One character at a time: what putc does to a queue, and getc. */
  function Put(cap: nat, q: seq<Char>, c: Char): seq<Char> {
    if |q| < cap then q + [c] else q
  }

  function PutEach(cap: nat, q: seq<Char>, s: seq<Char>): seq<Char>
    decreases |s|
  {
    if s == [] then q else PutEach(cap, Put(cap, q, s[0]), s[1..])
  }

  /** Characters got one by one, and the queue that is left. */
  function GetEach(q: seq<Char>, n: nat): (seq<Char>, seq<Char>) {
    if n == 0 || q == [] then ([], q) else
      var (got, rest) := GetEach(q[1..], n - 1);
      ([q[0]] + got, rest)
  }

  /** A block put at once is the same as its characters put one by one. */
  lemma {:induction false} BlockIsEachPut(cap: nat, q: seq<Char>, s: seq<Char>)
    requires |q| <= cap
    ensures PutEach(cap, q, s) == q + s[..Taken(cap, q, s)]
    decreases |s|
  {
    if s == [] {
      assert q + s[..0] == q;
    } else if |q| == cap {
      BlockIsEachPut(cap, q, s[1..]);
    } else {
      var q', n := q + [s[0]], Taken(cap, q + [s[0]], s[1..]);
      BlockIsEachPut(cap, q', s[1..]);
      assert Taken(cap, q, s) == n + 1;
      assert s[..n + 1] == [s[0]] + s[1..][..n];
      assert q' + s[1..][..n] == q + ([s[0]] + s[1..][..n]);
    }
  }

  lemma {:induction false} BlockIsEachGot(q: seq<Char>, n: nat)
    ensures GetEach(q, n) == (q[..Min(n, |q|)], q[Min(n, |q|)..])
    decreases |q|
  {
    if n > 0 && q != [] {
      BlockIsEachGot(q[1..], n - 1);
      var m := Min(n - 1, |q| - 1);
      assert q[..m + 1] == [q[0]] + q[1..][..m];
    }
  }

  /** Characters moved from the front of a queue to what has been taken out. */
  lemma Moved(out: seq<Char>, q: seq<Char>, i: nat)
    requires i <= |q|
    ensures out + q[..i] + q[i..] == out + q
  {
    assert q[..i] + q[i..] == q;
  }

  lemma Divided(q: seq<Char>, out: seq<Char>, rest: seq<Char>)
    requires q == out + rest
    ensures out == q[..|out|] && rest == q[|out|..]
  {
  }

  lemma Extended(q: seq<Char>, s: seq<Char>, n: nat, i: nat)
    requires n + i <= |s|
    ensures q + s[..n] + s[n..n + i] == q + s[..n + i]
  {
    assert s[..n] + s[n..n + i] == s[..n + i];
  }

  lemma ExactlyTaken(cap: nat, q: seq<Char>, s: seq<Char>, n: nat)
    requires n <= |s| && |q| + n <= cap && (n == |s| || |q| + n == cap)
    ensures n == Taken(cap, q, s)
  {
  }

  // ---------------------------------------------------------------- whole runs

  datatype Op = PutOne(c: Char) | GetOne | GetBlock(n: nat) | PutBlock(s: seq<Char>) | Flush(n: nat)

  /** Whether a character was entered; what getc returned; the characters got; how many were not entered. */
  datatype Answer = Entered(ok: bool) | One(c: int) | Got(s: seq<Char>) | Refused(n: int) | Flushed

  function Next(cap: nat, q: seq<Char>, op: Op): seq<Char> {
    match op
    case PutOne(c) => Put(cap, q, c)
    case GetOne => q[Min(1, |q|)..]
    case GetBlock(n) => q[Min(n, |q|)..]
    case PutBlock(s) => PutEach(cap, q, s)
    case Flush(n) => q[Min(n, |q|)..]
  }

  function Expected(cap: nat, q: seq<Char>, op: Op): Answer {
    match op
    case PutOne(c) => Entered(|q| < cap)
    case GetOne => One(First(q))
    case GetBlock(n) => Got(GetEach(q, n).0)
    case PutBlock(s) => Refused(|s| + |q| - |PutEach(cap, q, s)|)
    case Flush(n) => Flushed
  }

  function After(cap: nat, script: seq<Op>, k: nat): seq<Char>
    requires k <= |script|
  {
    if k == 0 then [] else Next(cap, After(cap, script, k - 1), script[k - 1])
  }

  /** The answers of a queue that is empty at first to the first k operations of a script. */
  function AnswersTo(cap: nat, script: seq<Op>, k: nat): (answers: seq<Answer>)
    requires k <= |script|
    ensures |answers| == k
  {
    if k == 0 then []
    else AnswersTo(cap, script, k - 1) + [Expected(cap, After(cap, script, k - 1), script[k - 1])]
  }
}
