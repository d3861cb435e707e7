/** Paths in a file system whose directories are searched as search_directory does: when a resolution has an end. */
module DirectoryPaths {
  import opened Arithmetic
  import opened PathSpec
  import D = DirectorySearch

  /** The directory that a node of a device is. */
  type Directories = (Dev, Ino) -> D.Dir

  predicate Ascii(s: string) {
    forall i :: 0 <= i < |s| ==> 0 < s[i] as int < 128
  }

  /** A component as the bytes it is compared by. */
  function NameOf(s: string): (n: D.Name)
    requires Ascii(s)
    ensures |n| == |s| && forall i :: 0 <= i < |s| ==> n[i] == s[i] as int
  {
    if s == "" then [] else [s[0] as int] + NameOf(s[1..])
  }

  function Answer(o: D.Outcome): Result<Ino> {
    match o
    case Found(ino) => Ok(ino)
    case NoEntry => Err(NoEntry)
    case Endless => Err(NoEnd)
    case Wrapped => Err(Malformed)
    case Overrun => Err(Malformed)
  }

  /** Looking a component up is searching the directory, unless the device fails. */
  ghost predicate Searches(w: World, dirs: Directories) {
    forall d, i, s :: Ascii(s) ==>
      || w.search(d, i, s) == Answer(D.Search(dirs(d, i), NameOf(s), 0))
      || (w.search(d, i, s).Err? && w.search(d, i, s).error.Foreign?)
  }

  /** An error that the search alone gives. */
  ghost predicate OnlySearch(w: World, e: Error) {
    && (forall s :: w.open(s) != Err(e))
    && (forall d :: w.mount(d) != Err(e))
    && (forall d, i :: w.inode(d, i) != Err(e))
    && (forall d, i, n: nat :: w.text(d, i, n) != Err(e))
  }

  predicate FromSearch(e: Error) {
    e == NoEnd || e == Malformed
  }

  /** One component: resolution does not come back exactly when the search of the directory does not. */
  lemma EnterEndlessIff(w: World, dirs: Directories, d: Dev, i: Ino, component: string, rest: string, links: nat)
    requires OnlySearch(w, NoEnd) && Ascii(component)
    requires w.search(d, i, component) == Answer(D.Search(dirs(d, i), NameOf(component), 0))
    ensures Enter(w, d, i, component, rest, links) == Stop(Err(NoEnd)) <==>
      D.Search(dirs(d, i), NameOf(component), 0) == D.Endless
  {
  }

  ghost predicate HoldsRecords(dir: D.Dir) {
    dir.size < WORD && exists records :: D.Holds(dir, records, 0)
  }

  /** Every directory holds a list of records. */
  ghost predicate WellFormed(w: World, dirs: Directories) {
    forall d, i :: w.inode(d, i) == Ok(Directory) ==> HoldsRecords(dirs(d, i))
  }

  /** A place of a resolution is a node of the world. */
  predicate Stands(w: World, p: Place) {
    w.inode(p.dev, p.ino) == Ok(p.node) && '\0' !in p.path
  }

  lemma SearchEnds(w: World, dirs: Directories, d: Dev, i: Ino, name: D.Name)
    requires WellFormed(w, dirs) && w.inode(d, i) == Ok(Directory)
    ensures D.Search(dirs(d, i), name, 0).Found? || D.Search(dirs(d, i), name, 0) == D.NoEntry
  {
    var records :| D.Holds(dirs(d, i), records, 0);
    D.FindsFirst(dirs(d, i), records, name, 0);
    D.FirstIs(records, name);
  }

  lemma EnterEnds(w: World, dirs: Directories, d: Dev, i: Ino, component: string, rest: string, links: nat, e: Error)
    requires Searches(w, dirs) && WellFormed(w, dirs) && OnlySearch(w, e) && FromSearch(e)
    requires w.inode(d, i) == Ok(Directory) && Ascii(component) && '\0' !in rest
    ensures Enter(w, d, i, component, rest, links) != Stop(Err(e))
    ensures Enter(w, d, i, component, rest, links).Go? ==> Stands(w, Enter(w, d, i, component, rest, links).place)
  {
    SearchEnds(w, dirs, d, i, NameOf(component));
  }

  lemma GoodIsAscii(component: string)
    requires Fault(component).Ok? && '\0' !in component
    ensures Ascii(component)
  {
  }

  lemma NextEnds(w: World, dirs: Directories, p: Place, e: Error)
    requires Searches(w, dirs) && WellFormed(w, dirs) && OnlySearch(w, e) && FromSearch(e)
    requires p.path != "" && Stands(w, p)
    ensures Next(w, p) != Stop(Err(e))
    ensures Next(w, p).Go? ==> Stands(w, Next(w, p).place)
  {
    var path := p.path[Slashes(p.path)..];
    var n := Word(path);
    if p.node == Directory && Fault(path[..n]).Ok? {
      GoodIsAscii(path[..n]);
      NextEnters(w, p, path, n);
      EnterEnds(w, dirs, p.dev, p.ino, path[..n], path[n..], p.links, e);
    }
  }

  /**
   * In a file system whose directories are well-formed, on any devices and with any web of links, every resolution
   * has an end, and reads no record behind its block.
   */
  lemma {:induction false} WellFormedEnds(w: World, dirs: Directories, p: Place, e: Error)
    requires Searches(w, dirs) && WellFormed(w, dirs) && OnlySearch(w, e) && FromSearch(e)
    requires p.links <= MAXSYMLINKS && Stands(w, p)
    ensures Resolve(w, p) != Err(e)
    decreases MAXSYMLINKS - p.links, |p.path|
  {
    if p.path != "" {
      ResolveStep(w, p);
      NextEnds(w, dirs, p, e);
      if Next(w, p).Go? {
        WellFormedEnds(w, dirs, Next(w, p).place, e);
      }
    }
  }

  /** The same of open_file. */
  lemma OpenEnds(w: World, dirs: Directories, path: string, e: Error)
    requires Searches(w, dirs) && WellFormed(w, dirs) && OnlySearch(w, e) && FromSearch(e) && '\0' !in path
    ensures ResolvePath(w, path) != Err(e)
  {
    if |path| <= MAXPATHLEN && "/dev/" <= path && AtDevice(w, path, 0).Go? {
      WellFormedEnds(w, dirs, AtDevice(w, path, 0).place, e);
    }
  }
}
