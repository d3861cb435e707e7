/**
 * Path resolution on plain strings: a symbolic link is replaced by its text followed by the rest of the path,
 * and resolution starts again at the link's directory, at the root, or at the root of a named device.
 */
module PathSpec {

  type Dev = nat
  type Ino = nat

  const ROOTINO: Ino := 2
  const MAXPATHLEN: nat := 1024
  const MAXSYMLINKS: nat := 8
  const MAXNAMLEN: nat := 255

  datatype Error =
    | NotDirectory | NoEntry | NameTooLong | SymlinkLoop | InvalidParameter
    | OutsideBuffer           // the text of a link has been copied outside the path buffer
    | NoEnd                   // the search of a directory does not come back
    | Malformed               // the search of a directory reads behind a block, or starts over
    | Foreign(code: int)      // from the device, the mount, or the directory search

  datatype Result<T> = Ok(value: T) | Err(error: Error)

  /** The size in an inode: 32 bits, unsigned. */
  type Size = n: nat | n < 0x1_0000_0000

  /** A node as its inode gives it; a link also has the length of its text. */
  datatype Node = Directory | Link(size: Size) | Plain

  /** The length the code works with: the size, taken as a signed number. */
  function LinkLength(size: Size): int {
    if size < 0x8000_0000 then size else size - 0x1_0000_0000
  }

  /** What is left of a number in an int of 32 bits. */
  function Signed32(n: int): int {
    (n + 0x8000_0000) % 0x1_0000_0000 - 0x8000_0000
  }

  /** The test of a link's length and of what follows it, as the code adds them up; the rest comes with its NUL. */
  predicate TooLong(size: Size, rest: string) {
    Signed32(LinkLength(size) + |rest| + 1) >= MAXPATHLEN - 1
  }

  /** What the devices hold: any answers at all. */
  datatype World = World(
    open: string -> Result<Dev>,
    mount: Dev -> Result<()>,
    inode: (Dev, Ino) -> Result<Node>,
    search: (Dev, Ino, string) -> Result<Ino>,
    text: (Dev, Ino, nat) -> Result<string>)

  /** A link's text has the length its inode says. */
  ghost predicate Sound(w: World) {
    forall d, i, n: nat :: w.text(d, i, n).Ok? ==> |w.text(d, i, n).value| == n
  }

  /** The part of a buffer before its first NUL. */
  function CString(s: string): (r: string)
    ensures |r| <= |s| && r == s[..|r|] && '\0' !in r
    ensures |r| < |s| ==> s[|r|] == '\0'
  {
    if s == "" || s[0] == '\0' then "" else [s[0]] + CString(s[1..])
  }

  /** Leading slashes. */
  function Slashes(s: string): (n: nat)
    ensures n <= |s|
    ensures forall i :: 0 <= i < n ==> s[i] == '/'
    ensures n < |s| ==> s[n] != '/'
  {
    if s == "" || s[0] != '/' then 0 else 1 + Slashes(s[1..])
  }

  /** Characters before the first slash. */
  function Word(s: string): (n: nat)
    ensures n <= |s|
    ensures forall i :: 0 <= i < n ==> s[i] != '/'
    ensures n < |s| ==> s[n] == '/'
  {
    if s == "" || s[0] == '/' then 0 else 1 + Word(s[1..])
  }

  /** The fault a component has, if any: its first character beyond 256, or outside ASCII. */
  function Fault(component: string): Result<()> {
    if forall i :: 0 <= i < |component| && i <= MAXNAMLEN ==> component[i] as int < 128 then
      if |component| > MAXNAMLEN + 1 then Err(NameTooLong) else Ok(())
    else Err(InvalidParameter)
  }

  /** Where resolution has got to. */
  datatype Place = Place(dev: Dev, ino: Ino, node: Node, path: string, links: nat)

  datatype Step = Stop(result: Result<(Dev, Ino)>) | Go(place: Place)

  /** Resolution of a path that starts with /dev/<device>: at the root of that device. */
  function AtDevice(w: World, path: string, links: nat): (s: Step)
    requires "/dev/" <= path
    ensures s.Go? ==> s.place.links == links
  {
    var after := path[5..];
    match w.open(after[..Word(after)])
    case Err(e) => Stop(Err(e))
    case Ok(d) =>
      match w.mount(d)
      case Err(e) => Stop(Err(e))
      case Ok(_) => AtNode(w, d, ROOTINO, after[Word(after)..], links)
  }

  function AtNode(w: World, d: Dev, i: Ino, path: string, links: nat): Step {
    match w.inode(d, i)
    case Err(e) => Stop(Err(e))
    case Ok(node) => Go(Place(d, i, node, path, links))
  }

  /** Where a link leads: its text, then the rest of the path. A negative length or a sum that wraps passes the test. */
  function Follow(w: World, d: Dev, directory: Ino, link: Ino, size: Size, rest: string, links: nat): Step {
    var length := LinkLength(size);
    if TooLong(size, rest) then Stop(Err(NameTooLong))
    else if links + 1 > MAXSYMLINKS then Stop(Err(SymlinkLoop))
    else if !SplicesInside(size, rest) then Stop(Err(OutsideBuffer))
    else match w.text(d, link, length)
      case Err(e) => Stop(Err(e))
      case Ok(text) =>
        var path := CString(text + rest);
        if !("/" <= path) then AtNode(w, d, directory, path, links + 1)
        else if !("/dev/" <= path) then AtNode(w, d, ROOTINO, path, links + 1)
        else AtDevice(w, path, links + 1)
  }

  /** One component of a path that is not empty. */
  function Next(w: World, p: Place): Step
    requires p.path != ""
  {
    if p.node != Directory then Stop(Err(NotDirectory)) else
    var path := p.path[Slashes(p.path)..];
    var component, rest := path[..Word(path)], path[Word(path)..];
    match Fault(component)
    case Err(e) => Stop(Err(e))
    case Ok(_) => Enter(w, p.dev, p.ino, component, rest, p.links)
  }

  /** Looks a component up in a directory, and goes on from what it names. */
  function Enter(w: World, d: Dev, directory: Ino, component: string, rest: string, links: nat): Step {
    match w.search(d, directory, component)
    case Err(e) => Stop(Err(e))
    case Ok(i) =>
      match w.inode(d, i)
      case Err(e) => Stop(Err(e))
      case Ok(Link(size)) => Follow(w, d, directory, i, size, rest, links)
      case Ok(node) => Go(Place(d, i, node, rest, links))
  }

  /** A step uses up a link, or some of the path. */
  lemma NextProgress(w: World, p: Place)
    requires p.path != "" && p.links <= MAXSYMLINKS && Next(w, p).Go?
    ensures var q := Next(w, p).place;
      q.links == p.links + 1 <= MAXSYMLINKS || (q.links == p.links && |q.path| < |p.path|)
  {
    var n := Slashes(p.path);
    var path := p.path[n..];
    if n == 0 {
      assert Word(path) > 0;
    }
  }

  /** Where a path leads: to a node of a device, or to an error. Every path and every web of links has an end. */
  function Resolve(w: World, p: Place): Result<(Dev, Ino)>
    requires p.links <= MAXSYMLINKS
    decreases MAXSYMLINKS - p.links, |p.path|
  {
    if p.path == "" then Ok((p.dev, p.ino)) else
    match Next(w, p)
    case Stop(r) => r
    case Go(q) =>
      NextProgress(w, p);
      Resolve(w, q)
  }

  /** Resolution goes on after a step from where the step leads. */
  lemma ResolveStep(w: World, p: Place)
    requires p.path != "" && p.links <= MAXSYMLINKS
    ensures Next(w, p).Stop? ==> Resolve(w, p) == Next(w, p).result
    ensures Next(w, p).Go? ==>
      var q := Next(w, p).place;
      && q.links <= MAXSYMLINKS
      && Resolve(w, p) == Resolve(w, q)
      && (q.links == p.links + 1 || (q.links == p.links && |q.path| < |p.path|))
  {
    if Next(w, p).Go? {
      NextProgress(w, p);
    }
  }

  /** The part of a path behind its leading slashes, cut at the next slash. */
  lemma NextEnters(w: World, p: Place, path: string, n: nat)
    requires p.path != "" && p.node == Directory && path == p.path[Slashes(p.path)..] && n == Word(path)
    requires Fault(path[..n]).Ok?
    ensures Next(w, p) == Enter(w, p.dev, p.ino, path[..n], path[n..], p.links)
  {
  }

  /** A path of any length; the buffer holds one of 1024 characters. */
  function ResolvePath(w: World, path: string): Result<(Dev, Ino)> {
    if |path| > MAXPATHLEN then Err(OutsideBuffer)
    else if !("/dev/" <= path) then Err(NoEntry) else
    match AtDevice(w, path, 0)
    case Stop(r) => r
    case Go(p) => Resolve(w, p)
  }

  /** The path of some components, each after a slash. */
  function PathOf(cs: seq<string>): string {
    if cs == [] then "" else "/" + cs[0] + PathOf(cs[1..])
  }

  predicate Component(c: string) {
    0 < |c| <= MAXNAMLEN + 1 && forall i :: 0 <= i < |c| ==> c[i] != '/' && (c[i] as int) < 128
  }

  /** Looking up components one after another, where no link is met. */
  function Descend(w: World, d: Dev, i: Ino, node: Node, cs: seq<string>): Result<(Dev, Ino)>
    decreases |cs|
  {
    if cs == [] then Ok((d, i))
    else if node != Directory then Err(NotDirectory)
    else match w.search(d, i, cs[0])
      case Err(e) => Err(e)
      case Ok(j) =>
        match w.inode(d, j)
        case Err(e) => Err(e)
        case Ok(n) => Descend(w, d, j, n, cs[1..])
  }

  predicate MeetsNoLink(w: World, d: Dev, i: Ino, cs: seq<string>)
    decreases |cs|
  {
    cs != [] && w.search(d, i, cs[0]).Ok? ==>
      var j := w.search(d, i, cs[0]).value;
      w.inode(d, j).Ok? ==> !w.inode(d, j).value.Link? && MeetsNoLink(w, d, j, cs[1..])
  }

  /** Without links, resolving a path is looking up its components in turn. */
  lemma {:induction false} ResolveDescends(w: World, p: Place, cs: seq<string>)
    requires p.links <= MAXSYMLINKS && p.path == PathOf(cs)
    requires forall k :: 0 <= k < |cs| ==> Component(cs[k])
    requires MeetsNoLink(w, p.dev, p.ino, cs)
    ensures Resolve(w, p) == Descend(w, p.dev, p.ino, p.node, cs)
    decreases |cs|
  {
    if cs != [] {
      var rest := PathOf(cs[1..]);
      SplitsFirst(cs[0], rest);
      var path := p.path[Slashes(p.path)..];
      assert path[..Word(path)] == cs[0] && path[Word(path)..] == rest;
      if p.node == Directory && w.search(p.dev, p.ino, cs[0]).Ok? {
        var j := w.search(p.dev, p.ino, cs[0]).value;
        if w.inode(p.dev, j).Ok? {
          ResolveDescends(w, Place(p.dev, j, w.inode(p.dev, j).value, rest, p.links), cs[1..]);
        }
      }
    }
  }

  lemma SplitsFirst(c: string, rest: string)
    requires Component(c) && (rest == "" || rest[0] == '/')
    ensures Slashes("/" + c + rest) == 1 && Word(c + rest) == |c|
    ensures ("/" + c + rest)[1..] == c + rest
  {
    assert ("/" + c + rest)[1..] == c + rest && (c + rest)[0] == c[0];
    assert Slashes(c + rest) == 0;
    WordOf(c, rest);
  }

  lemma {:induction false} WordOf(c: string, rest: string)
    requires (forall i :: 0 <= i < |c| ==> c[i] != '/') && (rest == "" || rest[0] == '/')
    ensures Word(c + rest) == |c|
  {
    if c == "" {
      assert c + rest == rest;
    } else {
      assert (c + rest)[1..] == c[1..] + rest;
      WordOf(c[1..], rest);
    }
  }

  // ---------------------------------------------------------------- strings in a buffer

  /** A buffer holds a string at a place, ended by a NUL. */
  ghost predicate Holds(buf: seq<char>, at: nat, s: string) {
    at + |s| < |buf| && buf[at..at + |s|] == s && buf[at + |s|] == '\0' && '\0' !in s
  }

  lemma HoldsTail(buf: seq<char>, at: nat, s: string, n: nat)
    requires Holds(buf, at, s) && n <= |s|
    ensures Holds(buf, at + n, s[n..])
  {
    assert buf[at + n..at + |s|] == buf[at..at + |s|][n..];
  }

  /** The buffer shows what comes at a place of a string, or its end. */
  ghost predicate Shows(buf: seq<char>, at: nat, s: string, k: nat) {
    && k <= |s| && at + k < |buf|
    && (k < |s| ==> buf[at + k] == s[k] != '\0')
    && (k == |s| ==> buf[at + k] == '\0')
  }

  /** What the buffer shows at each place of a string it holds. */
  lemma HoldsAt(buf: seq<char>, at: nat, s: string, k: nat)
    requires Holds(buf, at, s) && k <= |s|
    ensures Shows(buf, at, s, k)
  {
    if k < |s| {
      assert buf[at..at + |s|][k] == s[k];
    }
  }

  /** The first n characters of a component are good. */
  predicate GoodSoFar(component: string, n: nat) {
    && n <= |component| && n <= MAXNAMLEN + 1
    && forall i :: 0 <= i < n ==> component[i] as int < 128
  }

  lemma GoodNext(component: string, n: nat)
    requires GoodSoFar(component, n) && n < |component| && n <= MAXNAMLEN && component[n] as int < 128
    ensures GoodSoFar(component, n + 1)
  {
  }

  /** A component is faulty at its first bad character, too long beyond the last good one, or good. */
  lemma FaultAt(component: string, n: nat)
    requires GoodSoFar(component, n)
    ensures n == |component| ==> Fault(component) == Ok(())
    ensures n < |component| && n == MAXNAMLEN + 1 ==> Fault(component) == Err(NameTooLong)
    ensures n < |component| && n <= MAXNAMLEN && component[n] as int >= 128 ==>
      Fault(component) == Err(InvalidParameter)
  {
  }

  // ---------------------------------------------------------------- links that are too long for a signed length

  /** Where the text and the rest of the path would go in the buffer. */
  predicate SplicesInside(size: Size, rest: string) {
    0 <= LinkLength(size) && LinkLength(size) + |rest| + 1 <= MAXPATHLEN + 1
  }

  /** A splice that the length test lets through stays inside the buffer exactly if the true sum is below 2^31. */
  lemma InsideIffSmall(size: Size, rest: string)
    requires |rest| <= MAXPATHLEN && !TooLong(size, rest)
    ensures SplicesInside(size, rest) <==> size + |rest| + 1 < 0x8000_0000
  {
  }

  /** The errors of the world are its own. */
  ghost predicate Honest(w: World) {
    && (forall s :: w.open(s) != Err(OutsideBuffer))
    && (forall d :: w.mount(d) != Err(OutsideBuffer))
    && (forall d, i :: w.inode(d, i) != Err(OutsideBuffer))
    && (forall d, i, s :: w.search(d, i, s) != Err(OutsideBuffer))
    && (forall d, i, n: nat :: w.text(d, i, n) != Err(OutsideBuffer))
  }

  /** One link: the copy leaves the buffer exactly when size and rest come to 2^31 or more and pass the tests. */
  lemma EscapesIff(w: World, d: Dev, directory: Ino, link: Ino, size: Size, rest: string, links: nat)
    requires Honest(w) && |rest| <= MAXPATHLEN
    ensures Follow(w, d, directory, link, size, rest, links) == Stop(Err(OutsideBuffer)) <==>
            links < MAXSYMLINKS && 0x8000_0000 <= size + |rest| + 1 < 0x1_0000_0000 + MAXPATHLEN - 1
  {
  }

  /** A link whose size is 2^31: its length is negative, so it is found too long by nobody, and copied outside. */
  lemma HugeLinkEscapes(w: World, d: Dev, directory: Ino, link: Ino)
    ensures Follow(w, d, directory, link, 0x8000_0000, "", 0) == Stop(Err(OutsideBuffer))
  {
  }

  /** A link one byte shorter: its length is positive, and the sum with the NUL behind it is not. */
  lemma WrappedSumEscapes(w: World, d: Dev, directory: Ino, link: Ino)
    ensures LinkLength(0x7fff_ffff) > 0
    ensures Follow(w, d, directory, link, 0x7fff_ffff, "", 0) == Stop(Err(OutsideBuffer))
  {
  }

  /** No link of the world is so large that it comes to 2^31 with what a path buffer can hold behind it. */
  ghost predicate Modest(w: World) {
    forall d, i :: w.inode(d, i).Ok? && w.inode(d, i).value.Link? ==>
      w.inode(d, i).value.size + MAXPATHLEN + 1 < 0x8000_0000
  }

  /** A link's text and the rest of the path fit the buffer again. */
  lemma NextFits(w: World, p: Place)
    requires Sound(w) && p.path != "" && |p.path| <= MAXPATHLEN && Next(w, p).Go?
    ensures |Next(w, p).place.path| <= MAXPATHLEN
  {
  }

  lemma NextInside(w: World, p: Place)
    requires Honest(w) && Modest(w) && p.path != "" && |p.path| <= MAXPATHLEN
    ensures Next(w, p) != Stop(Err(OutsideBuffer))
  {
  }

  /** In such a world no path leads outside the buffer. */
  lemma {:induction false} ModestStaysInside(w: World, p: Place)
    requires Sound(w) && Honest(w) && Modest(w) && p.links <= MAXSYMLINKS && |p.path| <= MAXPATHLEN
    ensures Resolve(w, p) != Err(OutsideBuffer)
    decreases MAXSYMLINKS - p.links, |p.path|
  {
    if p.path != "" {
      ResolveStep(w, p);
      NextInside(w, p);
      if Next(w, p).Go? {
        NextFits(w, p);
        ModestStaysInside(w, Next(w, p).place);
      }
    }
  }

  /** In such a world open_file leaves the buffer exactly for paths that are longer than it. */
  lemma OutsideIffLong(w: World, path: string)
    requires Sound(w) && Honest(w) && Modest(w)
    ensures ResolvePath(w, path) == Err(OutsideBuffer) <==> |path| > MAXPATHLEN
  {
    if |path| <= MAXPATHLEN && "/dev/" <= path && AtDevice(w, path, 0).Go? {
      ModestStaysInside(w, AtDevice(w, path, 0).place);
    }
  }
}
