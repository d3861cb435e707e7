/** What the screening, the mapping of bad blocks and the sorting key of the hard-disk driver amount to. */
module DiskLaws {
  import opened Arithmetic
  import opened DiskRequests

  // ---------------------------------------------------------------- screening

  /** A transfer is needed exactly for a request that asks for something, may have it, and starts inside its slice. */
  lemma ScreenIff(units: seq<Unit>, r: Request)
    requires r.unit < |units| && r.slice < 16
    ensures var s := units[r.unit].slices[r.slice];
      var allowed := s.valid && (r.read || !s.readOnly);
      && (Screen(units, r) == Empty <==> r.bcount == 0)
      && (Screen(units, r) == Done <==> r.bcount > 0 && allowed && r.blkno < s.size)
      && (Screen(units, r) == EndOfFile <==> r.bcount > 0 && allowed && r.blkno == s.size && r.read)
      && Screen(units, r) != Failed
    ensures Screen(units, r) == Done <==> Admitted(units, r)
  {
  }

  // ---------------------------------------------------------------- bad tracks and sectors

  function TrackOf(d: Unit, block: nat): nat {
    Quotient(block, d.nsecpertrack)
  }

  predicate BadTrack(d: Unit, block: nat) {
    TrackOf(d, block) in d.tracks.bad
  }

  predicate BadSector(d: Unit, block: nat) {
    block in d.sectors.bad
  }

  /** Entry n of the tracks that stand in for bad ones. */
  predicate InTrack(d: Unit, n: nat, block: nat) {
    d.tracks.base + d.nsecpertrack * n <= block < d.tracks.base + d.nsecpertrack * n + d.nsecpertrack
  }

  /** A sector of a bad track keeps its place on the track that stands in, the n-th for the n-th bad one. */
  lemma TrackMoves(d: Unit, slice: nat, block: nat, n: nat)
    requires slice != PART_DISK && n < |d.tracks.bad| && d.tracks.bad[n] == TrackOf(d, block)
    requires forall i :: 0 <= i < n ==> d.tracks.bad[i] != d.tracks.bad[n]
    ensures Mapped(d, true, slice, block) ==
      d.tracks.base + d.nsecpertrack * n + Remainder(block, d.nsecpertrack)
    ensures InTrack(d, n, Mapped(d, true, slice, block))
    ensures Remainder(d.tracks.base, d.nsecpertrack) == 0 ==>
      && TrackOf(d, Mapped(d, true, slice, block)) == TrackOf(d, d.tracks.base) + n
      && Remainder(Mapped(d, true, slice, block), d.nsecpertrack) == Remainder(block, d.nsecpertrack)
  {
    var size := d.nsecpertrack;
    assert IndexOf(d.tracks.bad, TrackOf(d, block)) == n;
    Parts(block, size);
    if Remainder(d.tracks.base, size) == 0 {
      Parts(d.tracks.base, size);
      var q := TrackOf(d, d.tracks.base);
      assert size * (q + n) == size * q + size * n;
      Division(Mapped(d, true, slice, block), size, q + n, Remainder(block, size));
    }
  }

  /** A sector that is bad on its own, on a good track. */
  lemma SectorMoves(d: Unit, slice: nat, block: nat, n: nat)
    requires slice != PART_DISK && !BadTrack(d, block)
    requires n < |d.sectors.bad| && d.sectors.bad[n] == block
    requires forall i :: 0 <= i < n ==> d.sectors.bad[i] != block
    ensures Mapped(d, true, slice, block) == d.sectors.base + n
  {
    assert IndexOf(d.tracks.bad, block / d.nsecpertrack) == |d.tracks.bad|;
    assert IndexOf(d.sectors.bad, block) == n;
  }

  /** Anything else stays, and so does everything on the whole-disk slice. */
  lemma OthersStay(d: Unit, domapping: bool, slice: nat, block: nat)
    requires !domapping || slice == PART_DISK || (!BadTrack(d, block) && !BadSector(d, block))
    ensures Mapped(d, domapping, slice, block) == block
  {
    var t, s := IndexOf(d.tracks.bad, block / d.nsecpertrack), IndexOf(d.sectors.bad, block);
    if domapping && slice != PART_DISK {
      assert t == |d.tracks.bad| && s == |d.sectors.bad|;
    }
  }

  /** The blocks set aside: the tracks that stand in, and the sectors that do. */
  predicate SetAside(d: Unit, block: nat) {
    AmongTracks(d, block) || AmongSectors(d, block)
  }

  predicate AmongTracks(d: Unit, block: nat) {
    d.tracks.base <= block < d.tracks.base + d.nsecpertrack * |d.tracks.bad|
  }

  predicate AmongSectors(d: Unit, block: nat) {
    d.sectors.base <= block < d.sectors.base + |d.sectors.bad|
  }

  /** Where a block goes: which table it goes by, and to which entry of it. */
  datatype Way = ByTrack(n: nat) | BySector(n: nat) | Straight

  function WayOf(d: Unit, block: nat): Way {
    if BadTrack(d, block) then ByTrack(IndexOf(d.tracks.bad, TrackOf(d, block)))
    else if BadSector(d, block) then BySector(IndexOf(d.sectors.bad, block))
    else Straight
  }

  lemma WayTaken(d: Unit, slice: nat, block: nat)
    requires slice != PART_DISK
    ensures match WayOf(d, block)
      case ByTrack(n) =>
        && n < |d.tracks.bad| && d.tracks.bad[n] == TrackOf(d, block)
        && Mapped(d, true, slice, block) == d.tracks.base + d.nsecpertrack * n + Remainder(block, d.nsecpertrack)
        && AmongTracks(d, Mapped(d, true, slice, block))
      case BySector(n) =>
        && n < |d.sectors.bad| && d.sectors.bad[n] == block
        && Mapped(d, true, slice, block) == d.sectors.base + n
      case Straight => Mapped(d, true, slice, block) == block
  {
    match WayOf(d, block)
    case ByTrack(n) =>
      TrackMoves(d, slice, block, n);
      Apart(d.nsecpertrack, |d.tracks.bad|, n);
    case BySector(n) => SectorMoves(d, slice, block, n);
    case Straight => OthersStay(d, true, slice, block);
  }

  /** Two blocks are never kept in the same place, as long as what is set aside is set aside once, and not in use. */
  lemma MappedApart(d: Unit, slice: nat, a: nat, b: nat)
    requires slice != PART_DISK && a != b && !SetAside(d, a) && !SetAside(d, b)
    requires forall x: nat :: !(AmongTracks(d, x) && AmongSectors(d, x))
    ensures Mapped(d, true, slice, a) != Mapped(d, true, slice, b)
  {
    WayTaken(d, slice, a);
    WayTaken(d, slice, b);
    match (WayOf(d, a), WayOf(d, b))
    case (ByTrack(m), ByTrack(n)) =>
      TracksApart(d, a, b, m, n);
    case _ =>
      assert !(AmongTracks(d, Mapped(d, true, slice, a)) && AmongSectors(d, Mapped(d, true, slice, a)));
      assert !(AmongTracks(d, Mapped(d, true, slice, b)) && AmongSectors(d, Mapped(d, true, slice, b)));
  }

  lemma TracksApart(d: Unit, a: nat, b: nat, m: nat, n: nat)
    requires a != b && m < |d.tracks.bad| && n < |d.tracks.bad|
    requires d.tracks.bad[m] == TrackOf(d, a) && d.tracks.bad[n] == TrackOf(d, b)
    ensures d.nsecpertrack * m + Remainder(a, d.nsecpertrack) != d.nsecpertrack * n + Remainder(b, d.nsecpertrack)
  {
    var size := d.nsecpertrack;
    Parts(a, size);
    Parts(b, size);
    if size * m + Remainder(a, size) == size * n + Remainder(b, size) {
      Division(size * m + Remainder(a, size), size, m, Remainder(a, size));
      Division(size * m + Remainder(a, size), size, n, Remainder(b, size));
      assert false;
    }
  }

  /** Blocks set aside twice can collide: one bad track and one bad sector given the same block. */
  lemma SetAsideTwice()
    ensures var d: Unit := Drive(1, 1, AltTable(100, [5]), AltTable(100, [7]),
                                 seq(16, _ => Slice(0, 0, false, false)));
      Mapped(d, true, 0, 5) == Mapped(d, true, 0, 7)
  {
    var d: Unit := Drive(1, 1, AltTable(100, [5]), AltTable(100, [7]), seq(16, _ => Slice(0, 0, false, false)));
    Division(5, 1, 5, 0);
    Division(7, 1, 7, 0);
    TrackMoves(d, 0, 5, 0);
    SectorMoves(d, 0, 7, 0);
  }

  // ---------------------------------------------------------------- the sorting key

  /** Requests are sorted by the cylinder the controller is told. */
  lemma SortedByCylinder(d: Unit, block: nat)
    ensures CylinderOf(d, block) == Encode(d, block).cylinder
  {
    var n, h := d.nsecpertrack, d.nheads;
    var track := Quotient(block, n);
    var c, t, r := Quotient(track, h), Remainder(track, h), Remainder(block, n);
    Parts(block, n);
    Parts(track, h);
    Apart(n, h, t);
    assert n * (h * c + t) == (n * h) * c + n * t;
    Division(block, n * h, c, n * t + r);
  }
}
