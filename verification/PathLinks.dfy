/**
 * Where a symbolic link leads, component by component: relative text goes on in the link's own directory, text with a
 * leading slash at the root, and text that names a device at the root of that device; then comes the rest of the path.
 */
module PathLinks {
  import opened PathSpec

  /** Components that can stand in a path buffer. */
  predicate Proper(cs: seq<string>) {
    forall k :: 0 <= k < |cs| ==> Component(cs[k]) && '\0' !in cs[k]
  }

  /** Some components without a leading slash. */
  function Relative(cs: seq<string>): string {
    if cs == [] then "" else cs[0] + PathOf(cs[1..])
  }

  // ---------------------------------------------------------------- strings

  lemma {:induction false} PathJoin(a: seq<string>, b: seq<string>)
    ensures PathOf(a + b) == PathOf(a) + PathOf(b)
    decreases |a|
  {
    if a == [] {
      assert a + b == b;
    } else {
      PathJoin(a[1..], b);
      assert (a + b)[1..] == a[1..] + b && (a + b)[0] == a[0];
      assert "/" + a[0] + (PathOf(a[1..]) + PathOf(b)) == "/" + a[0] + PathOf(a[1..]) + PathOf(b);
    }
  }

  lemma RelativeJoin(a: seq<string>, b: seq<string>)
    requires a != []
    ensures Relative(a) + PathOf(b) == Relative(a + b)
  {
    PathJoin(a[1..], b);
    assert (a + b)[1..] == a[1..] + b && (a + b)[0] == a[0];
    Associate(a[0], PathOf(a[1..]), PathOf(b));
  }

  lemma Associate(a: string, b: string, c: string)
    ensures a + (b + c) == a + b + c
  {
  }

  lemma SlashRelative(a: seq<string>)
    requires a != []
    ensures PathOf(a) == "/" + Relative(a)
  {
    Associate("/", a[0], PathOf(a[1..]));
  }

  lemma {:induction false} PathHasNoNul(cs: seq<string>)
    requires Proper(cs)
    ensures '\0' !in PathOf(cs) && (PathOf(cs) == "" || PathOf(cs)[0] == '/')
    ensures '\0' !in Relative(cs)
    decreases |cs|
  {
    if cs != [] {
      PathHasNoNul(cs[1..]);
    }
  }

  lemma {:induction false} CStringWhole(s: string)
    requires '\0' !in s
    ensures CString(s) == s
  {
    if s != "" {
      CStringWhole(s[1..]);
      assert [s[0]] + s[1..] == s;
    }
  }

  /** The first character of relative text is no slash. */
  lemma RelativeStart(cs: seq<string>)
    requires Proper(cs) && cs != []
    ensures Relative(cs) != "" && Relative(cs)[0] != '/'
  {
  }

  /** Text with a leading slash names a device exactly when its first component is dev and another follows. */
  lemma DeviceText(cs: seq<string>)
    requires Proper(cs) && cs != []
    ensures "/dev/" <= PathOf(cs) <==> cs[0] == "dev" && |cs| >= 2
    ensures "/" <= PathOf(cs)
  {
    PathHasNoNul(cs[1..]);
    DevicePrefix(cs[0], PathOf(cs[1..]));
  }

  lemma FirstWord(s: string)
    requires "/dev/" <= s
    ensures Word(s[1..]) == 3
  {
    var t := s[1..];
    assert t[0] == 'd' && t[1] == 'e' && t[2] == 'v' && t[3] == '/';
    assert t == "dev" + t[3..];
    WordOf("dev", t[3..]);
  }

  lemma DevicePrefix(c: string, rest: string)
    requires '/' !in c && (rest == "" || rest[0] == '/')
    ensures "/dev/" <= "/" + c + rest <==> c == "dev" && rest != ""
    ensures "/" <= "/" + c + rest
  {
    var s := "/" + c + rest;
    assert s[1..] == c + rest;
    if "/dev/" <= s {
      WordOf(c, rest);
      FirstWord(s);
      assert c == s[1..][..3] && s[1..4] == "dev";
    }
  }

  // ---------------------------------------------------------------- resolution

  /** A slash in front of a path that has none makes no difference. */
  lemma SlashSkipped(w: World, p: Place, q: Place)
    requires p.links <= MAXSYMLINKS && q.path != "" && q.path[0] != '/' && p == q.(path := "/" + q.path)
    ensures Resolve(w, p) == Resolve(w, q)
  {
    NextAlike(w, p, q);
    ResolveStep(w, p);
    ResolveStep(w, q);
  }

  lemma NextAlike(w: World, p: Place, q: Place)
    requires q.path != "" && q.path[0] != '/' && p == q.(path := "/" + q.path)
    ensures Next(w, p) == Next(w, q)
  {
    var s := q.path;
    assert p.path[1..] == s && Slashes(s) == 0 && Slashes(p.path) == 1;
    assert s[0..] == s;
  }

  /** The first component of a path names a symbolic link with a text that the path buffer has room for. */
  ghost predicate AtLink(w: World, p: Place, c: string, link: Ino, text: string, rest: seq<string>) {
    && p.node == Directory && w.inode(p.dev, p.ino) == Ok(Directory) && p.links < MAXSYMLINKS
    && Component(c) && Proper(rest) && p.path == PathOf([c] + rest)
    && w.search(p.dev, p.ino, c) == Ok(link)
    && |text| + |PathOf(rest)| + 1 < MAXPATHLEN - 1
    && w.inode(p.dev, link) == Ok(Link(|text|)) && w.text(p.dev, link, |text|) == Ok(text)
  }

  /** Up to the link: what is resolved next is its text and the rest of the path. */
  lemma LinkMet(w: World, p: Place, c: string, link: Ino, text: string, rest: seq<string>)
    requires AtLink(w, p, c, link, text, rest)
    ensures p.path != "" && Next(w, p) == Follow(w, p.dev, p.ino, link, |text|, PathOf(rest), p.links)
  {
    PathHasNoNul(rest);
    assert ([c] + rest)[1..] == rest;
    SplitsFirst(c, PathOf(rest));
    var path := p.path[Slashes(p.path)..];
    assert path == c + PathOf(rest) && Word(path) == |c|;
    assert path[..|c|] == c && path[|c|..] == PathOf(rest);
    FaultAt(c, |c|);
    NextEnters(w, p, path, |c|);
  }

  lemma FollowInside(w: World, d: Dev, directory: Ino, link: Ino, text: string, rest: string, links: nat, path: string)
    requires |text| + |rest| + 1 < MAXPATHLEN - 1 && links < MAXSYMLINKS && w.text(d, link, |text|) == Ok(text)
    requires path == text + rest && CString(path) == path
    ensures Follow(w, d, directory, link, |text|, rest, links) == Restart(w, d, directory, path, links + 1)
  {
    assert !TooLong(|text|, rest) && SplicesInside(|text|, rest);
  }

  /** Where the tests on the spliced path send the resolution. */
  function Restart(w: World, d: Dev, directory: Ino, path: string, links: nat): Step {
    if !("/" <= path) then AtNode(w, d, directory, path, links)
    else if !("/dev/" <= path) then AtNode(w, d, ROOTINO, path, links)
    else AtDevice(w, path, links)
  }

  lemma LinkGoes(w: World, p: Place, c: string, link: Ino, text: string, rest: seq<string>, path: string, q: Place)
    requires AtLink(w, p, c, link, text, rest) && path == text + PathOf(rest) && '\0' !in path
    requires Restart(w, p.dev, p.ino, path, p.links + 1) == Go(q) && q.links == p.links + 1
    ensures Resolve(w, p) == Resolve(w, q)
  {
    CStringWhole(path);
    LinkMet(w, p, c, link, text, rest);
    FollowInside(w, p.dev, p.ino, link, text, PathOf(rest), p.links, path);
    StepGoes(w, p, q);
  }

  lemma RestartRelative(w: World, q: Place)
    requires q.path != "" && q.path[0] != '/' && w.inode(q.dev, q.ino) == Ok(q.node)
    ensures Restart(w, q.dev, q.ino, q.path, q.links) == Go(q)
  {
  }

  lemma RelativeText(ts: seq<string>, rest: seq<string>)
    requires ts != [] && Proper(ts) && Proper(rest)
    ensures var path := Relative(ts + rest);
      && Relative(ts) + PathOf(rest) == path && '\0' !in path && path != "" && path[0] != '/'
      && PathOf(ts + rest) == "/" + path
  {
    RelativeJoin(ts, rest);
    PathHasNoNul(ts + rest);
    RelativeStart(ts + rest);
    SlashRelative(ts + rest);
  }

  /** Relative text: resolution goes on in the directory of the link. */
  lemma RelativeLink(w: World, p: Place, c: string, link: Ino, ts: seq<string>, rest: seq<string>, q: Place)
    requires AtLink(w, p, c, link, Relative(ts), rest) && ts != [] && Proper(ts)
    requires q == Place(p.dev, p.ino, Directory, PathOf(ts + rest), p.links + 1)
    ensures Resolve(w, p) == Resolve(w, q)
  {
    RelativeText(ts, rest);
    RelativeGoes(w, p, c, link, Relative(ts), rest, q.(path := Relative(ts + rest)), q);
  }

  lemma RelativeGoes(w: World, p: Place, c: string, link: Ino, text: string, rest: seq<string>, q: Place, q': Place)
    requires AtLink(w, p, c, link, text, rest) && q.path == text + PathOf(rest) && '\0' !in q.path
    requires q.path != "" && q.path[0] != '/' && q' == q.(path := "/" + q.path)
    requires q == Place(p.dev, p.ino, Directory, q.path, p.links + 1)
    ensures Resolve(w, p) == Resolve(w, q')
  {
    RestartRelative(w, q);
    LinkGoes(w, p, c, link, text, rest, q.path, q);
    SlashSkipped(w, q', q);
  }

  /** Text with a leading slash, other than a device's: resolution goes on at the root of the same device. */
  lemma AbsoluteLink(w: World, p: Place, c: string, link: Ino, ts: seq<string>, rest: seq<string>, root: Node)
    requires AtLink(w, p, c, link, PathOf(ts), rest) && ts != [] && Proper(ts)
    requires !(ts[0] == "dev" && |ts + rest| >= 2) && w.inode(p.dev, ROOTINO) == Ok(root)
    ensures Resolve(w, p) == Resolve(w, Place(p.dev, ROOTINO, root, PathOf(ts + rest), p.links + 1))
  {
    PathJoin(ts, rest);
    PathHasNoNul(ts + rest);
    DeviceText(ts + rest);
    LinkGoes(w, p, c, link, PathOf(ts), rest, PathOf(ts + rest),
             Place(p.dev, ROOTINO, root, PathOf(ts + rest), p.links + 1));
  }

  lemma StepGoes(w: World, p: Place, q: Place)
    requires p.path != "" && p.links < MAXSYMLINKS && Next(w, p) == Go(q)
    ensures q.links <= MAXSYMLINKS && Resolve(w, p) == Resolve(w, q)
  {
    ResolveStep(w, p);
  }

  /** Where a path that names a device begins. */
  lemma DeviceStart(w: World, name: string, rest: seq<string>, links: nat, d: Dev, root: Node)
    requires (forall i :: 0 <= i < |name| ==> name[i] != '/') && Proper(rest)
    requires w.open(name) == Ok(d) && w.mount(d) == Ok(()) && w.inode(d, ROOTINO) == Ok(root)
    ensures "/dev/" <= "/dev/" + name + PathOf(rest)
    ensures AtDevice(w, "/dev/" + name + PathOf(rest), links) == Go(Place(d, ROOTINO, root, PathOf(rest), links))
  {
    var path := "/dev/" + name + PathOf(rest);
    PathHasNoNul(rest);
    WordOf(name, PathOf(rest));
    assert path[5..] == name + PathOf(rest);
    assert (name + PathOf(rest))[..|name|] == name && (name + PathOf(rest))[|name|..] == PathOf(rest);
  }

  /** Text that names a device: resolution goes on at the root of that device. */
  lemma DeviceLink(w: World, p: Place, c: string, link: Ino, name: string, ts: seq<string>, rest: seq<string>,
                   d: Dev, root: Node)
    requires AtLink(w, p, c, link, "/dev/" + name + PathOf(ts), rest) && Proper(ts)
    requires (forall i :: 0 <= i < |name| ==> name[i] != '/') && '\0' !in name
    requires w.open(name) == Ok(d) && w.mount(d) == Ok(()) && w.inode(d, ROOTINO) == Ok(root)
    ensures Resolve(w, p) == Resolve(w, Place(d, ROOTINO, root, PathOf(ts + rest), p.links + 1))
  {
    DeviceJoin(name, ts, rest);
    DeviceStart(w, name, ts + rest, p.links + 1, d, root);
    LinkGoes(w, p, c, link, "/dev/" + name + PathOf(ts), rest, "/dev/" + name + PathOf(ts + rest),
             Place(d, ROOTINO, root, PathOf(ts + rest), p.links + 1));
  }

  lemma DeviceJoin(name: string, ts: seq<string>, rest: seq<string>)
    requires Proper(ts) && Proper(rest) && '\0' !in name
    ensures "/dev/" + name + PathOf(ts) + PathOf(rest) == "/dev/" + name + PathOf(ts + rest)
    ensures '\0' !in "/dev/" + name + PathOf(ts + rest) && "/" <= "/dev/" + name + PathOf(ts + rest)
  {
    PathJoin(ts, rest);
    PathHasNoNul(ts + rest);
    Associate("/dev/" + name, PathOf(ts), PathOf(rest));
  }

  /** If no other link is met, the components of the text and those of the rest are looked up in turn. */
  lemma RelativeLinkDescends(w: World, p: Place, c: string, link: Ino, ts: seq<string>, rest: seq<string>)
    requires AtLink(w, p, c, link, Relative(ts), rest) && ts != [] && Proper(ts)
    requires MeetsNoLink(w, p.dev, p.ino, ts + rest)
    ensures Resolve(w, p) == Descend(w, p.dev, p.ino, Directory, ts + rest)
  {
    var q := Place(p.dev, p.ino, Directory, PathOf(ts + rest), p.links + 1);
    RelativeLink(w, p, c, link, ts, rest, q);
    ResolveDescends(w, q, ts + rest);
  }

  lemma AbsoluteLinkDescends(w: World, p: Place, c: string, link: Ino, ts: seq<string>, rest: seq<string>, root: Node)
    requires AtLink(w, p, c, link, PathOf(ts), rest) && ts != [] && Proper(ts)
    requires !(ts[0] == "dev" && |ts + rest| >= 2) && w.inode(p.dev, ROOTINO) == Ok(root)
    requires MeetsNoLink(w, p.dev, ROOTINO, ts + rest)
    ensures Resolve(w, p) == Descend(w, p.dev, ROOTINO, root, ts + rest)
  {
    AbsoluteLink(w, p, c, link, ts, rest, root);
    ResolveDescends(w, Place(p.dev, ROOTINO, root, PathOf(ts + rest), p.links + 1), ts + rest);
  }

  lemma DeviceLinkDescends(w: World, p: Place, c: string, link: Ino, name: string, ts: seq<string>, rest: seq<string>,
                           d: Dev, root: Node)
    requires AtLink(w, p, c, link, "/dev/" + name + PathOf(ts), rest) && Proper(ts)
    requires (forall i :: 0 <= i < |name| ==> name[i] != '/') && '\0' !in name
    requires w.open(name) == Ok(d) && w.mount(d) == Ok(()) && w.inode(d, ROOTINO) == Ok(root)
    requires MeetsNoLink(w, d, ROOTINO, ts + rest)
    ensures Resolve(w, p) == Descend(w, d, ROOTINO, root, ts + rest)
  {
    DeviceLink(w, p, c, link, name, ts, rest, d, root);
    ResolveDescends(w, Place(d, ROOTINO, root, PathOf(ts + rest), p.links + 1), ts + rest);
  }

  /** A path that open_file is given, without links: its components in turn, from the root of the device it names. */
  lemma OpenDescends(w: World, name: string, cs: seq<string>, d: Dev, root: Node)
    requires (forall i :: 0 <= i < |name| ==> name[i] != '/') && Proper(cs)
    requires |"/dev/" + name + PathOf(cs)| <= MAXPATHLEN
    requires w.open(name) == Ok(d) && w.mount(d) == Ok(()) && w.inode(d, ROOTINO) == Ok(root)
    requires MeetsNoLink(w, d, ROOTINO, cs)
    ensures ResolvePath(w, "/dev/" + name + PathOf(cs)) == Descend(w, d, ROOTINO, root, cs)
  {
    DeviceStart(w, name, cs, 0, d, root);
    ResolveDescends(w, Place(d, ROOTINO, root, PathOf(cs), 0), cs);
  }
}
