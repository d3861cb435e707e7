/** open_file: the path is resolved in one buffer, where a link's text is spliced in before the rest of the path. */
module PathLookup {
  import opened PathSpec

  /** Bytes moved within a buffer, the rest as it was. */
  lemma BytesMoved(was: string, now: string, from: nat, to: nat, bytes: nat)
    requires |was| == |now| && from + bytes <= |was| && to + bytes <= |was|
    requires forall j :: to <= j < to + bytes ==> now[j] == was[from + (j - to)]
    requires forall j :: 0 <= j < |was| && !(to <= j < to + bytes) ==> now[j] == was[j]
    ensures now[to..to + bytes] == was[from..from + bytes]
    ensures now[..to] == was[..to] && now[to + bytes..] == was[to + bytes..]
  {
    var moved, source := now[to..to + bytes], was[from..from + bytes];
    forall k | 0 <= k < bytes ensures moved[k] == source[k] {
      assert now[to + k] == was[from + (to + k - to)];
    }
  }

  /** A copy that goes from low addresses to high. */
  method Bcopy(buf: array<char>, from: nat, to: nat, bytes: nat)
    requires from + bytes <= buf.Length && to + bytes <= buf.Length
    requires from >= to || from + bytes <= to
    modifies buf
    ensures buf[to..to + bytes] == old(buf[from..from + bytes])
    ensures buf[..to] == old(buf[..to]) && buf[to + bytes..] == old(buf[to + bytes..])
  {
    ghost var was := buf[..];
    for i := 0 to bytes
      invariant forall j :: to <= j < to + i ==> buf[j] == was[from + (j - to)]
      invariant forall j :: 0 <= j < buf.Length && !(to <= j < to + i) ==> buf[j] == was[j]
    {
      buf[to + i] := buf[from + i];
    }
    BytesMoved(was, buf[..], from, to, bytes);
    assert buf[to..to + bytes] == buf[..][to..to + bytes] && was[from..from + bytes] == old(buf[from..from + bytes]);
  }

  /** ovbcopy: right also when the two ranges overlap. */
  method Ovbcopy(buf: array<char>, from: nat, to: nat, bytes: nat)
    requires from + bytes <= buf.Length && to + bytes <= buf.Length
    modifies buf
    ensures buf[to..to + bytes] == old(buf[from..from + bytes])
    ensures buf[..to] == old(buf[..to]) && buf[to + bytes..] == old(buf[to + bytes..])
  {
    if from + bytes <= to || to + bytes <= from || to == from {
      Bcopy(buf, from, to, bytes);
    } else if from > to {
      Bcopy(buf, from, to, bytes);
    } else {
      ghost var was := buf[..];
      var left := bytes;
      while left > 0
        invariant 0 <= left <= bytes
        invariant forall j :: to + left <= j < to + bytes ==> buf[j] == was[from + (j - to)]
        invariant forall j :: 0 <= j < buf.Length && !(to + left <= j < to + bytes) ==> buf[j] == was[j]
      {
        left := left - 1;
        buf[to + left] := buf[from + left];
      }
      BytesMoved(was, buf[..], from, to, bytes);
      assert buf[to..to + bytes] == buf[..][to..to + bytes] && was[from..from + bytes] == old(buf[from..from + bytes]);
    }
  }

  /** The characters of a string in the buffer before the first slash, copied out. */
  method CopyWord(buf: array<char>, at: nat, ghost s: string) returns (word: string, next: nat)
    requires Holds(buf[..], at, s)
    ensures word == s[..Word(s)] && next == at + Word(s)
  {
    word, next := "", at;
    while buf[next] != '\0' && buf[next] != '/'
      invariant at <= next <= at + |s| && next < buf.Length
      invariant word == s[..next - at] && next - at <= Word(s)
      decreases buf.Length - next
    {
      assert buf[next] == s[next - at];
      word := word + [buf[next]];
      next := next + 1;
    }
  }

  /** The same for a component of a path, which must be short enough and in ASCII. */
  method CopyComponent(buf: array<char>, at: nat, ghost s: string) returns (r: Result<()>, word: string, next: nat)
    requires Holds(buf[..], at, s)
    ensures r == Fault(s[..Word(s)])
    ensures r.Ok? ==> word == s[..Word(s)] && Holds(buf[..], next, s[Word(s)..])
  {
    ghost var text, n := buf[..], Word(s);
    r, word := ScanComponent(buf, at, s, text, n, s[..n]);
    next := at + |word|;
    if r.Ok? {
      HoldsTail(text, at, s, n);
    }
  }

  /** The loop: the component is taken up to the slash or the end, or to what is wrong with it. */
  method ScanComponent(buf: array<char>, at: nat, ghost s: string, ghost text: string, ghost n: nat,
                       ghost component: string) returns (r: Result<()>, word: string)
    requires text == buf[..] && Holds(text, at, s) && n == Word(s) && component == s[..n]
    ensures r == Fault(component)
    ensures r.Ok? ==> word == component
  {
    word := "";
    var len := 0;
    HoldsAt(text, at, s, 0);
    while buf[at + len] != '\0' && buf[at + len] != '/'
      invariant len <= n && Shows(text, at, s, len) && GoodSoFar(component, len)
      invariant word == component[..len]
      decreases n - len
    {
      FaultAt(component, len);
      if len > MAXNAMLEN {
        return Err(NameTooLong), word;
      }
      if buf[at + len] as int >= 128 {
        return Err(InvalidParameter), word;
      }
      GoodNext(component, len);
      HoldsAt(text, at, s, len + 1);
      word := word + [buf[at + len]];
      len := len + 1;
    }
    FaultAt(component, len);
    return Ok(()), word;
  }

  method CountSlashes(buf: array<char>, at: nat, ghost s: string) returns (k: nat)
    requires Holds(buf[..], at, s)
    ensures k == Slashes(s)
  {
    k := 0;
    HoldsAt(buf[..], at, s, 0);
    while buf[at + k] == '/'
      invariant k <= Slashes(s) && Shows(buf[..], at, s, k)
      decreases |s| - k
    {
      HoldsAt(buf[..], at, s, k + 1);
      k := k + 1;
    }
  }

  method SkipSlashes(buf: array<char>, at: nat, ghost s: string) returns (next: nat)
    requires Holds(buf[..], at, s)
    ensures Holds(buf[..], next, s[Slashes(s)..])
  {
    var k := CountSlashes(buf, at, s);
    HoldsTail(buf[..], at, s, k);
    next := at + k;
  }

  /** Where resolution goes on in the buffer, or how it ends. */
  datatype Move = Ended(result: Result<(Dev, Ino)>) | Moved(dev: Dev, ino: Ino, node: Node, links: nat, cp: nat)

  /** The buffer after a move holds what the string resolver says is left of the path. */
  ghost predicate Mirrors(buf: seq<char>, m: Move, s: Step) {
    match s
    case Stop(r) => m == Ended(r)
    case Go(p) => m.Moved? && m == Moved(p.dev, p.ino, p.node, p.links, m.cp) && Holds(buf, m.cp, p.path)
  }

  method EnterNode(w: World, d: Dev, i: Ino, links: nat, ghost buf: seq<char>, cp: nat, ghost path: string)
    returns (m: Move)
    requires Holds(buf, cp, path)
    ensures Mirrors(buf, m, AtNode(w, d, i, path, links))
  {
    match w.inode(d, i)
    case Err(e) => m := Ended(Err(e));
    case Ok(node) => m := Moved(d, i, node, links, cp);
  }

  /** Starts at the root of the device named at the front of the buffer. */
  method EnterDevice(w: World, buf: array<char>, links: nat, ghost path: string) returns (m: Move)
    requires Holds(buf[..], 0, path) && "/dev/" <= path
    ensures Mirrors(buf[..], m, AtDevice(w, path, links))
  {
    HoldsTail(buf[..], 0, path, 5);
    var component, cp := CopyWord(buf, 5, path[5..]);
    HoldsTail(buf[..], 5, path[5..], Word(path[5..]));
    match w.open(component)
    case Err(e) => m := Ended(Err(e));
    case Ok(d) =>
      match w.mount(d)
      case Err(e) => m := Ended(Err(e));
      case Ok(_) =>
        m := EnterNode(w, d, ROOTINO, links, buf[..], cp, path[5..][Word(path[5..])..]);
  }

  /** Puts a link's text in front of the rest of the path, in the same buffer. */
  method Splice(buf: array<char>, cp: nat, len: nat, text: string, ghost rest: string)
    requires Holds(buf[..], cp, rest) && len == |rest| + 1 && |text| + |rest| + 1 < buf.Length
    modifies buf
    ensures Holds(buf[..], 0, CString(text + rest))
  {
    Ovbcopy(buf, cp, |text|, len);
    ghost var moved := buf[..];
    assert moved[|text|..|text| + len] == rest + "\0";
    for i := 0 to |text|
      invariant buf[..i] == text[..i]
      invariant buf[|text|..] == moved[|text|..]
    {
      buf[i] := text[i];
    }
    assert buf[..|text|] == text && buf[|text|..][..len] == rest + "\0";
    SplicedString(buf[..], text, rest);
  }

  lemma SplicedString(buf: seq<char>, text: string, rest: string)
    requires |text| + |rest| + 1 <= |buf|
    requires buf[..|text|] == text && buf[|text|..][..|rest| + 1] == rest + "\0"
    ensures Holds(buf, 0, CString(text + rest))
  {
    var all := text + rest;
    var s := CString(all);
    assert buf[..|all| + 1] == text + (rest + "\0");
    assert buf[..|s|] == buf[..|all| + 1][..|s|];
    assert buf[|s|] == buf[..|all| + 1][|s|];
  }

  method Strlen(buf: array<char>, at: nat, ghost s: string) returns (n: nat)
    requires Holds(buf[..], at, s)
    ensures n == |s|
  {
    n := 0;
    while buf[at + n] != '\0'
      invariant n <= |s|
      decreases |s| - n
    {
      assert buf[at + n] == s[n];
      n := n + 1;
    }
  }

  /** Follows a symbolic link. */
  method FollowLink(w: World, buf: array<char>, cp: nat, d: Dev, directory: Ino, link: Ino, size: Size, links: nat,
                    ghost rest: string) returns (m: Move)
    requires Sound(w) && buf.Length == MAXPATHLEN + 1 && Holds(buf[..], cp, rest)
    modifies buf
    ensures Mirrors(buf[..], m, Follow(w, d, directory, link, size, rest, links))
  {
    var length := LinkLength(size);
    var len := Strlen(buf, cp, rest);
    len := len + 1;
    if Signed32(length + len) >= MAXPATHLEN - 1 {
      return Ended(Err(NameTooLong));
    }
    if links + 1 > MAXSYMLINKS {
      return Ended(Err(SymlinkLoop));
    }
    if length < 0 || length + len > buf.Length {
      return Ended(Err(OutsideBuffer));   // the first copy goes to a place before the buffer, or far behind it
    }
    match w.text(d, link, length)
    case Err(e) => m := Ended(Err(e));
    case Ok(text) =>
      Splice(buf, cp, len, text, rest);
      ghost var path := CString(text + rest);
      if buf[0] != '/' {
        m := EnterNode(w, d, directory, links + 1, buf[..], 0, path);
      } else {
        var named := Strprefix(buf, "/dev/", path);
        if !named {
          m := EnterNode(w, d, ROOTINO, links + 1, buf[..], 0, path);
        } else {
          m := EnterDevice(w, buf, links + 1, path);
        }
      }
  }

  /** Whether the string at the front of the buffer starts with another. */
  method Strprefix(buf: array<char>, prefix: string, ghost s: string) returns (yes: bool)
    requires Holds(buf[..], 0, s) && '\0' !in prefix
    ensures yes <==> prefix <= s
  {
    for i := 0 to |prefix|
      invariant i <= |s| && s[..i] == prefix[..i]
    {
      HoldsAt(buf[..], 0, s, i);
      if prefix[i] != buf[i] {
        return false;
      }
    }
    yes := true;
  }

  /** One component of the path: the same step in the buffer as on the string. */
  method TakeStep(w: World, buf: array<char>, at: nat, d: Dev, i: Ino, node: Node, links: nat, ghost s: string)
    returns (m: Move)
    requires Sound(w) && buf.Length == MAXPATHLEN + 1 && Holds(buf[..], at, s) && s != ""
    modifies buf
    ensures Mirrors(buf[..], m, Next(w, Place(d, i, node, s, links)))
  {
    if node != Directory {
      return Ended(Err(NotDirectory));
    }
    var r, component, next := ReadComponent(buf, at, s);
    if r.Err? {
      return Ended(Err(r.error));
    }
    ghost var path := s[Slashes(s)..];
    NextEnters(w, Place(d, i, node, s, links), path, Word(path));
    m := EnterComponent(w, buf, next, d, i, links, component, path[Word(path)..]);
  }

  /** Skips slashes and takes the component behind them. */
  method ReadComponent(buf: array<char>, at: nat, ghost s: string) returns (r: Result<()>, component: string, next: nat)
    requires Holds(buf[..], at, s)
    ensures var path := s[Slashes(s)..];
      && r == Fault(path[..Word(path)])
      && (r.Ok? ==> component == path[..Word(path)] && Holds(buf[..], next, path[Word(path)..]))
  {
    var cp := SkipSlashes(buf, at, s);
    r, component, next := CopyComponent(buf, cp, s[Slashes(s)..]);
  }

  method EnterComponent(w: World, buf: array<char>, next: nat, d: Dev, i: Ino, links: nat, component: string,
                        ghost rest: string) returns (m: Move)
    requires Sound(w) && buf.Length == MAXPATHLEN + 1 && Holds(buf[..], next, rest)
    modifies buf
    ensures Mirrors(buf[..], m, Enter(w, d, i, component, rest, links))
  {
    match w.search(d, i, component)
    case Err(e) => m := Ended(Err(e));
    case Ok(j) =>
      match w.inode(d, j)
      case Err(e) => m := Ended(Err(e));
      case Ok(Link(size)) => m := FollowLink(w, buf, next, d, i, j, size, links, rest);
      case Ok(n) => m := Moved(d, j, n, links, next);
  }

  /** Copies the name into a buffer of its own, to allow modifying it. */
  method LoadPath(path: string) returns (buf: array<char>)
    requires |path| <= MAXPATHLEN && '\0' !in path
    ensures fresh(buf) && buf.Length == MAXPATHLEN + 1 && Holds(buf[..], 0, path)
  {
    buf := new char[MAXPATHLEN + 1](_ => '\0');
    for i := 0 to |path|
      invariant buf[..i] == path[..i] && buf[|path|] == '\0'
    {
      buf[i] := path[i];
    }
    assert buf[0..|path|] == path;
  }

  ghost function PlaceOf(m: Move, path: string): Place
    requires m.Moved?
  {
    Place(m.dev, m.ino, m.node, path, m.links)
  }

  /** A step from a place leads to where resolution goes on, with less to do; or it ends resolution. */
  lemma StepResolves(w: World, p: Place, buf: seq<char>, m: Move)
    requires p.path != "" && p.links <= MAXSYMLINKS && Mirrors(buf, m, Next(w, p))
    ensures m.Ended? ==> m.result == Resolve(w, p)
    ensures m.Moved? ==>
      && Next(w, p).Go?
      && var q := PlaceOf(m, Next(w, p).place.path);
      && Holds(buf, m.cp, q.path) && m.links <= MAXSYMLINKS && Resolve(w, q) == Resolve(w, p)
      && (m.links == p.links + 1 || (m.links == p.links && |q.path| < |p.path|))
  {
    ResolveStep(w, p);
  }

  /** The buffer holds the rest of a path that leads to the goal. */
  ghost predicate Leads(w: World, buf: seq<char>, m: Move, s: string, goal: Result<(Dev, Ino)>) {
    m.Moved? && m.links <= MAXSYMLINKS && Holds(buf, m.cp, s) && Resolve(w, PlaceOf(m, s)) == goal
  }

  /** One turn of the loop. */
  method Turn(w: World, buf: array<char>, at: Move, ghost s: string, ghost goal: Result<(Dev, Ino)>)
    returns (m: Move, ghost rest: string)
    requires Sound(w) && buf.Length == MAXPATHLEN + 1 && Leads(w, buf[..], at, s, goal) && s != ""
    modifies buf
    ensures m.Ended? ==> m.result == goal
    ensures m.Moved? ==> Leads(w, buf[..], m, rest, goal)
    ensures m.Moved? ==> m.links == at.links + 1 || (m.links == at.links && |rest| < |s|)
  {
    m := TakeStep(w, buf, at.cp, at.dev, at.ino, at.node, at.links, s);
    StepResolves(w, PlaceOf(at, s), buf[..], m);
    rest := if m.Moved? then Next(w, PlaceOf(at, s)).place.path else "";
  }

  /** The loop of open_file, from the root of the device that the path names. */
  method WalkPath(w: World, buf: array<char>, start: Move, ghost path: string, ghost goal: Result<(Dev, Ino)>)
    returns (r: Result<(Dev, Ino)>)
    requires Sound(w) && buf.Length == MAXPATHLEN + 1 && Leads(w, buf[..], start, path, goal)
    modifies buf
    ensures r == goal
  {
    var m := start;
    ghost var s := path;
    while buf[m.cp] != '\0'
      invariant Leads(w, buf[..], m, s, goal)
      decreases MAXSYMLINKS - m.links, |s|
    {
      m, s := Turn(w, buf, m, s, goal);
      if m.Ended? {
        return m.result;
      }
    }
    return Ok((m.dev, m.ino));
  }

  /**
   * open_file: leads where the string resolver leads, for every path, in at most eight links. In a world without links
   * of nearly 2^31 bytes or more it leaves the path buffer exactly for paths longer than the buffer.
   */
  method OpenFile(w: World, path: string) returns (r: Result<(Dev, Ino)>)
    requires Sound(w) && '\0' !in path
    ensures r == ResolvePath(w, path)
    ensures Honest(w) && Modest(w) ==> (r == Err(OutsideBuffer) <==> |path| > MAXPATHLEN)
  {
    if path == "" {
      return Err(NoEntry);
    }
    if Honest(w) && Modest(w) {
      OutsideIffLong(w, path);
    }
    if |path| > MAXPATHLEN {
      return Err(OutsideBuffer);   // the copy of the name goes on behind the buffer
    }
    var buf := LoadPath(path);
    var named := Strprefix(buf, "/dev/", path);
    if !named {
      return Err(NoEntry);
    }
    var m := EnterDevice(w, buf, 0, path);
    if m.Ended? {
      return m.result;
    }
    r := WalkPath(w, buf, m, AtDevice(w, path, 0).place.path, ResolvePath(w, path));
  }
}
