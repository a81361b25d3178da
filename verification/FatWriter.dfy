/** The image builder (tools/mkfat.py): sizing, cluster assignment, chains and rendering. */
module FatWriter {
  import opened Words
  import opened LittleEndian
  import opened Slices
  import opened FatNames
  import opened FatTree
  import opened FatLayout

  // ---- sizing ------------------------------------------------------------------------------

  /** The sectors of a FAT for so many clusters. */
  function Need(clusters: int): int { ((clusters + 2) * 2 + SEC - 1) / SEC }

  /** The FAT that covers the volume as if the FAT itself took one sector. */
  function FatSecs(total: nat): nat {
    var need := Need(total - DataStart(1));
    if need <= 1 then 1 else need
  }

  function Clusters(total: nat): int { total - DataStart(FatSecs(total)) }

  /** The sizing loop looks at two FAT sizes at most, and ends with a FAT that covers every cluster. */
  method SizeFat(total: nat) returns (fatSecs: nat, clusters: int, ghost rounds: nat)
    ensures rounds <= 2
    ensures fatSecs == FatSecs(total) && clusters == Clusters(total)
    ensures (clusters + 2) * 2 <= fatSecs * SEC
    ensures 4085 <= clusters < 65525 ==> Sound(Geometry(total, fatSecs, clusters))
  {
    fatSecs, rounds := 1, 0;
    while true
      invariant rounds == 0 ==> fatSecs == 1
      invariant rounds == 1 ==> fatSecs == Need(total - DataStart(1)) > 1
      invariant rounds <= 1
      decreases 2 - rounds
    {
      clusters := total - RESERVED - NFATS * fatSecs - ROOT_SECS;
      var need := ((clusters + 2) * 2 + SEC - 1) / SEC;
      rounds := rounds + 1;
      if need <= fatSecs { break; }
      fatSecs := need;
    }
  }

  // ---- clusters and chains --------------------------------------------------------------------

  /** Assigns clusters in preorder, next being the first free one. */
  method Assign(cs: seq<Node>, next: nat) returns (out: seq<Node>, free: nat)
    ensures out == Assigned(cs, next) && free == next + Total(cs)
    decreases cs
  {
    hide Own, Size, Placed;
    out, free := [], next;
    assert cs[0..] == cs;
    for i := 0 to |cs|
      invariant out + Assigned(cs[i..], free) == Assigned(cs, next)
      invariant free + Total(cs[i..]) == next + Total(cs)
    {
      AssignedStep(cs, i, free);
      var d, after := AssignNode(cs[i], free);
      out, free := out + [d], after;
    }
  }

  method AssignNode(c: Node, next: nat) returns (d: Node, free: nat)
    ensures d == Placed(c, next) && free == next + Size(c)
    decreases c
  {
    var n := Own(c);
    var first := if n == 0 then 0 else next;
    free := next + n;
    match c {
      case File(name, data, _, _) => d := File(name, data, first, n);
      case Dir(name, children, _, _) =>
        var kids;
        kids, free := Assign(children, free);
        d := Dir(name, kids, first, n);
    }
  }

  method WriteChain(fat: array<nat>, first: nat, count: nat)
    requires first + count <= fat.Length
    modifies fat
    ensures Wrote(fat[..], old(fat[..]), first, Chain(first, count))
  {
    for i := 0 to count
      invariant forall j :: 0 <= j < fat.Length ==>
        fat[j] == if first <= j < first + i then Chain(first, count)[j - first] else old(fat[j])
    {
      fat[first + i] := if i + 1 < count then first + i + 1 else 0xFFFF;
    }
    OverlayAt(old(fat[..]), first, Chain(first, count));
  }

  /** fat is was with the links of the nodes before node i of the forest, whose next free cluster is cur. */
  ghost predicate Linked(fat: seq<nat>, was: seq<nat>, cs: seq<Node>, at: nat, i: nat, cur: nat) {
    i <= |cs| && LaidOut(cs[i..], cur) && cur + Total(cs[i..]) == at + Total(cs) <= |fat| &&
    Overlay(fat, cur, FatArea(cs[i..])) == Overlay(was, at, FatArea(cs))
  }

  lemma LinkedStart(fat: seq<nat>, cs: seq<Node>, at: nat)
    requires LaidOut(cs, at) && at + Total(cs) <= |fat|
    ensures Linked(fat, fat, cs, at, 0, at)
  {
    assert cs[0..] == cs;
  }

  lemma LinkedNode(fat: seq<nat>, was: seq<nat>, cs: seq<Node>, at: nat, i: nat, cur: nat)
    requires i < |cs| && Linked(fat, was, cs, at, i, cur)
    ensures NodeLaidOut(cs[i], cur) && cur + Size(cs[i]) <= |fat|
  {
    LinksStep(cs, i, cur);
  }

  lemma LinkedNext(fat: seq<nat>, was: seq<nat>, cs: seq<Node>, at: nat, i: nat, cur: nat, next: seq<nat>)
    requires i < |cs| && Linked(fat, was, cs, at, i, cur) && Wrote(next, fat, cur, Links(cs[i]))
    ensures Linked(next, was, cs, at, i + 1, cur + Size(cs[i]))
  {
    hide Overlay, Links, NodeLaidOut;
    LinksStep(cs, i, cur);
    OverlaySplit(fat, cur, Links(cs[i]), FatArea(cs[i + 1..]));
  }

  lemma LinkedEnd(fat: seq<nat>, was: seq<nat>, cs: seq<Node>, at: nat, cur: nat)
    requires Linked(fat, was, cs, at, |cs|, cur)
    ensures Wrote(fat, was, at, FatArea(cs))
  {
    OverlayNothing(fat, cur);
  }

  /** Links the clusters of every node of the forest. */
  method ChainAll(fat: array<nat>, cs: seq<Node>, ghost at: nat)
    requires LaidOut(cs, at) && at + Total(cs) <= fat.Length
    modifies fat
    ensures Wrote(fat[..], old(fat[..]), at, FatArea(cs))
    decreases cs
  {
    hide Wrote, Linked, LaidOut, Size, Total, FatArea, Links, NodeLaidOut;
    ghost var cur: nat := at;
    LinkedStart(fat[..], cs, at);
    for i := 0 to |cs|
      invariant Linked(fat[..], old(fat[..]), cs, at, i, cur)
    {
      ghost var was := fat[..];
      LinkedNode(was, old(fat[..]), cs, at, i, cur);
      ChainNode(fat, cs[i], cur);
      LinkedNext(was, old(fat[..]), cs, at, i, cur, fat[..]);
      cur := cur + Size(cs[i]);
    }
    LinkedEnd(fat[..], old(fat[..]), cs, at, cur);
  }

  method ChainNode(fat: array<nat>, c: Node, ghost at: nat)
    requires NodeLaidOut(c, at) && at + Size(c) <= fat.Length
    modifies fat
    ensures Wrote(fat[..], old(fat[..]), at, Links(c))
    decreases c
  {
    hide FatArea, Total, LaidOut, Wrote, Chain;
    ghost var was := fat[..];
    WroteNothing(was, at);
    if c.nclusters != 0 {
      WriteChain(fat, c.cluster, c.nclusters);
    } else {
      assert Chain(c.cluster, Own(c)) == [];
    }
    if c.Dir? {
      ghost var mid := fat[..];
      ChainAll(fat, c.children, at + Own(c));
      WroteBoth(was, at, Chain(c.cluster, Own(c)), mid, FatArea(c.children), fat[..]);
    } else {
      assert Chain(c.cluster, Own(c)) + [] == Chain(c.cluster, Own(c));
    }
  }

  // ---- rendering ---------------------------------------------------------------------------------

  predicate Fits83(name: Text) { Name83(name).Some? }

  /** All names below the given nodes fit; their own names are the parent's business. */
  predicate BelowFit(cs: seq<Node>) {
    forall i :: 0 <= i < |cs| && cs[i].Dir? ==> AllNames(cs[i].children, Fits83)
  }

  /** The names of the nodes themselves fit. */
  predicate OwnFit(cs: seq<Node>) { forall i :: 0 <= i < |cs| ==> Fits83(cs[i].name) }

  /** A slice assignment that lies inside the image, so that its length stays the same. */
  method WriteSlice(img: array<u8>, off: nat, bytes: Bytes)
    requires off + |bytes| <= img.Length
    modifies img
    ensures Wrote(img[..], old(img[..]), off, bytes)
  {
    for k := 0 to |bytes|
      invariant forall b :: 0 <= b < img.Length ==>
        img[b] == if off <= b < off + k then bytes[b - off] else old(img[b])
    {
      img[off + k] := bytes[k];
    }
    OverlayAt(old(img[..]), off, bytes);
  }

  /** The entries of a directory, or nothing if a name does not fit. */
  method PackEntries(cs: seq<Node>, st: Stamp) returns (r: Option<Bytes>)
    ensures r.Some? <==> OwnFit(cs)
    ensures r.Some? ==> r.value == Entries(cs, st)
  {
    hide Entry;
    var out: Bytes := [];
    assert cs[0..] == cs;
    for i := 0 to |cs|
      invariant forall j :: 0 <= j < i ==> Fits83(cs[j].name)
      invariant out + Entries(cs[i..], st) == Entries(cs, st)
    {
      if Name83(cs[i].name).None? {
        assert !Fits83(cs[i].name);
        return None;
      }
      assert cs[i..][1..] == cs[i + 1..];
      out := out + Entry(cs[i], st);
    }
    r := Some(out);
  }

  ghost predicate Blank(img: Bytes, lo: nat, hi: nat) {
    hi <= |img| && forall b :: lo <= b < hi ==> img[b] == 0
  }

  lemma BlankFits(img: Bytes, lo: nat, hi: nat)
    requires Blank(img, lo, hi)
    ensures hi <= |img|
  {
  }

  lemma BlankLess(img: Bytes, lo: nat, mid: nat, hi: nat)
    requires mid <= hi && Blank(img, lo, hi)
    ensures Blank(img, lo, mid)
  {
  }

  /** In blank space, writing a blob also pads it. */
  lemma WrotePadded(r: Bytes, s: Bytes, at: nat, b: Bytes, n: nat)
    requires |b| <= n && Blank(s, at, at + n) && Wrote(r, s, at, b)
    ensures Wrote(r, s, at, Padded(b, n))
  {
  }

  lemma StillBlank(img: Bytes, at: nat, b: Bytes, hi: nat, r: Bytes)
    requires at + |b| <= hi && Blank(img, at, hi) && Wrote(r, img, at, b)
    ensures Blank(r, at + |b|, hi)
  {
  }

  /** img is was with the nodes before node i of the forest written; cur is the next cluster. */
  ghost predicate Rendered(img: Bytes, was: Bytes, g: Geometry, cs: seq<Node>, parent: nat, st: Stamp, at: nat, i: nat,
                           cur: nat)
  {
    i <= |cs| && 2 <= at && 2 <= cur && LaidOut(cs[i..], cur) && cur + Total(cs[i..]) == at + Total(cs) &&
    Blank(img, ClusterOff(g, cur), ClusterOff(g, at + Total(cs))) &&
    Overlay(img, ClusterOff(g, cur), Area(cs[i..], parent, st)) == Overlay(was, ClusterOff(g, at), Area(cs, parent, st))
  }

  lemma RenderedStart(img: Bytes, g: Geometry, cs: seq<Node>, parent: nat, st: Stamp, at: nat)
    requires at >= 2 && LaidOut(cs, at) && Blank(img, ClusterOff(g, at), ClusterOff(g, at + Total(cs)))
    ensures Rendered(img, img, g, cs, parent, st, at, 0, at)
  {
    hide Overlay, Blank;
    assert cs[0..] == cs;
  }

  lemma RenderedNode(img: Bytes, was: Bytes, g: Geometry, cs: seq<Node>, parent: nat, st: Stamp, at: nat, i: nat, cur: nat)
    requires i < |cs| && Rendered(img, was, g, cs, parent, st, at, i, cur)
    ensures cur >= 2 && NodeLaidOut(cs[i], cur)
    ensures Blank(img, ClusterOff(g, cur), ClusterOff(g, cur) + Size(cs[i]) * SEC)
  {
    hide Overlay;
    LinksStep(cs, i, cur);
  }

  lemma RenderedNext(img: Bytes, was: Bytes, g: Geometry, cs: seq<Node>, parent: nat, st: Stamp, at: nat, i: nat, cur: nat,
                     next: Bytes)
    requires i < |cs| && Rendered(img, was, g, cs, parent, st, at, i, cur)
    requires Wrote(next, img, ClusterOff(g, cur), NodeArea(cs[i], parent, st))
    ensures Rendered(next, was, g, cs, parent, st, at, i + 1, cur + Size(cs[i]))
  {
    hide Overlay, NodeArea, NodeLaidOut, Blank, Links, Wrote;
    LinksStep(cs, i, cur);
    AreaStep(cs, i, parent, st);
    var area := NodeArea(cs[i], parent, st);
    StillBlank(img, ClusterOff(g, cur), area, ClusterOff(g, at + Total(cs)), next);
    SplitWrote(next, img, ClusterOff(g, cur), area, Area(cs[i + 1..], parent, st));
  }

  lemma SplitWrote(next: Bytes, img: Bytes, off: nat, v: Bytes, w: Bytes)
    requires Wrote(next, img, off, v)
    ensures Overlay(img, off, v + w) == Overlay(next, off + |v|, w)
  {
    OverlaySplit(img, off, v, w);
  }

  lemma RenderedEnd(img: Bytes, was: Bytes, g: Geometry, cs: seq<Node>, parent: nat, st: Stamp, at: nat, cur: nat)
    requires Rendered(img, was, g, cs, parent, st, at, |cs|, cur)
    ensures Wrote(img, was, ClusterOff(g, at), Area(cs, parent, st))
  {
    OverlayNothing(img, ClusterOff(g, cur));
  }

  /** Writes the nodes of a forest and all that lies below them; parent is their directory's cluster. */
  method RenderAll(img: array<u8>, g: Geometry, cs: seq<Node>, parent: nat, ghost at: nat, st: Stamp) returns (ok: bool)
    requires at >= 2 && LaidOut(cs, at) && Blank(img[..], ClusterOff(g, at), ClusterOff(g, at + Total(cs)))
    modifies img
    ensures ok <==> BelowFit(cs)
    ensures ok ==> Wrote(img[..], old(img[..]), ClusterOff(g, at), Area(cs, parent, st))
    decreases cs
  {
    hide Wrote, Rendered, LaidOut, Size, Total, Area, NodeArea, NodeLaidOut, Blank;
    ghost var cur: nat := at;
    RenderedStart(img[..], g, cs, parent, st, at);
    for i := 0 to |cs|
      invariant Rendered(img[..], old(img[..]), g, cs, parent, st, at, i, cur)
      invariant forall j :: 0 <= j < i && cs[j].Dir? ==> AllNames(cs[j].children, Fits83)
    {
      ghost var was := img[..];
      RenderedNode(was, old(img[..]), g, cs, parent, st, at, i, cur);
      ok := RenderNode(img, g, cs[i], parent, cur, st);
      if !ok { return; }
      RenderedNext(was, old(img[..]), g, cs, parent, st, at, i, cur, img[..]);
      cur := cur + Size(cs[i]);
    }
    RenderedEnd(img[..], old(img[..]), g, cs, parent, st, at, cur);
    ok := true;
  }

  method RenderNode(img: array<u8>, g: Geometry, c: Node, parent: nat, ghost at: nat, st: Stamp) returns (ok: bool)
    requires at >= 2 && NodeLaidOut(c, at) && Blank(img[..], ClusterOff(g, at), ClusterOff(g, at) + Size(c) * SEC)
    modifies img
    ensures ok <==> (c.Dir? ==> AllNames(c.children, Fits83))
    ensures ok ==> Wrote(img[..], old(img[..]), ClusterOff(g, at), NodeArea(c, parent, st))
    decreases c
  {
    match c {
      case File(_, data, cluster, _) =>
        ghost var was := img[..];
        WroteNothing(was, ClusterOff(g, at));
        if data != [] { WriteSlice(img, ClusterOff(g, cluster), data); }
        WrotePadded(img[..], was, ClusterOff(g, at), data, Own(c) * SEC);
        ok := true;
      case Dir(_, children, cluster, nclusters) =>
        var entries := PackEntries(children, st);
        if entries.None? { return false; }
        var dots :=
          Dirent(DOT_NAME, ATTR_DIR, cluster % 0x1_0000, 0, st) + Dirent(DOTDOT_NAME, ATTR_DIR, parent % 0x1_0000, 0, st);
        ok := RenderDir(img, g, c, dots + entries.value, parent, at, st);
    }
  }

  method RenderDir(img: array<u8>, g: Geometry, c: Node, blob: Bytes, ghost parent: nat, ghost at: nat, st: Stamp)
    returns (ok: bool)
    requires c.Dir? && at >= 2 && NodeLaidOut(c, at) && blob == Blob(c, parent, st)
    requires Blank(img[..], ClusterOff(g, at), ClusterOff(g, at) + Size(c) * SEC)
    modifies img
    ensures ok <==> BelowFit(c.children)
    ensures ok ==> Wrote(img[..], old(img[..]), ClusterOff(g, at), NodeArea(c, parent, st))
    decreases c, 0
  {
    hide Own, Area, FatArea, Total, LaidOut, Wrote, Blank, BelowFit, Dirent, Entries;
    ghost var off, was, full := ClusterOff(g, at), img[..], Padded(blob, Own(c) * SEC);
    assert off + |blob| <= img.Length by { BlankFits(was, off, off + Size(c) * SEC); }
    WriteSlice(img, ClusterOff(g, c.cluster), blob);
    ghost var mid := img[..];
    BlankLess(was, off, off + |full|, off + Size(c) * SEC);
    WrotePadded(mid, was, off, blob, Own(c) * SEC);
    StillBlank(was, off, full, off + Size(c) * SEC, mid);
    ok := RenderAll(img, g, c.children, c.cluster, at + Own(c), st);
    if ok { WroteBoth(was, off, full, mid, Area(c.children, c.cluster, st), img[..]); }
  }

  // ---- the whole image ---------------------------------------------------------------------------

  lemma BlankKept(r: Bytes, s: Bytes, at: nat, w: Bytes, lo: nat, hi: nat)
    requires Wrote(r, s, at, w) && Blank(s, lo, hi) && (hi <= at || at + |w| <= lo)
    ensures Blank(r, lo, hi)
  {
  }

  lemma FilledBy(r: Bytes, s: Bytes, at: nat, w: Bytes, hi: nat)
    requires Wrote(r, s, at, w) && Blank(s, at, hi) && at + |w| <= hi
    ensures Filled(r, at, hi, w)
  {
    assert r[at..hi] == Padded(w, hi - at);
  }

  lemma FilledKept(r: Bytes, s: Bytes, at: nat, w: Bytes, lo: nat, hi: nat, v: Bytes)
    requires Wrote(r, s, at, w) && Filled(s, lo, hi, v) && (hi <= at || at + |w| <= lo)
    ensures Filled(r, lo, hi, v)
  {
    assert r[lo..hi] == s[lo..hi];
  }

  /** The parameter block and the signature make up the boot sector. */
  lemma BootFilled(r: Bytes, q: Bytes, s: Bytes, g: Geometry, hi: nat)
    requires Sound(g) && SEC <= hi && Blank(s, 0, hi)
    requires Wrote(q, s, 0, Bpb(g)) && Wrote(r, q, 510, [0x55, 0xAA])
    ensures Filled(r, 0, hi, BootSector(g))
  {
    hide Bpb;
    assert r[0..hi] == Padded(BootSector(g), hi);
  }

  /** FAT entries fit their 16 bits. */
  lemma {:induction false} LinksFit(cs: seq<Node>, at: nat)
    requires LaidOut(cs, at) && at + Total(cs) < 0x1_0000
    ensures forall v <- FatArea(cs) :: v < 0x1_0000
  {
    if cs != [] {
      if cs[0].Dir? { LinksFit(cs[0].children, at + Own(cs[0])); }
      LinksFit(cs[1..], at + Size(cs[0]));
      assert forall v <- Chain(cs[0].cluster, Own(cs[0])) :: v < 0x1_0000;
    }
  }

  lemma FatComplete(was: seq<nat>, fat: seq<nat>, cs: seq<Node>, clusters: nat)
    requires Total(cs) <= clusters && |was| == clusters + 2 && was[0] == 0xFFF8 && was[1] == 0xFFFF
    requires (forall j :: 2 <= j < |was| ==> was[j] == 0) && Wrote(fat, was, 2, FatArea(cs))
    ensures fat == FatOf(cs, clusters)
  {
    hide Total, FatArea;
  }

  method FillFat(cs: seq<Node>, clusters: nat) returns (fat: seq<nat>)
    requires LaidOut(cs, 2) && Total(cs) <= clusters < 65525
    ensures fat == FatOf(cs, clusters) && forall v <- fat :: v < 0x1_0000
  {
    var table := new nat[clusters + 2](_ => 0);
    table[0], table[1] := 0xFFF8, 0xFFFF;
    ghost var was := table[..];
    hide LaidOut, Total, FatArea, Wrote;
    ChainAll(table, cs, 2);
    fat := table[..];
    FatComplete(was, fat, cs, clusters);
    LinksFit(cs, 2);
  }

  method MakeTree(ms: seq<Mapping>) returns (r: Option<seq<Node>>)
    ensures r.Some? <==> forall m <- ms :: Parts(m.dst) != []
    ensures r.Some? ==> r.value == TreeOf(ms)
  {
    var root: seq<Node> := [];
    for i := 0 to |ms|
      invariant forall m <- ms[..i] :: Parts(m.dst) != []
      invariant root == TreeOf(ms[..i])
    {
      var parts := Parts(ms[i].dst);
      if parts == [] { return None; }
      root := Insert(root, parts, ms[i].data);
      assert ms[..i + 1][..i] == ms[..i] && ms[..i + 1] == ms[..i] + [ms[i]];
    }
    assert ms[..|ms|] == ms;
    r := Some(root);
  }

  datatype BuildError = BadSize | NoName | TooSmall | BadName | RootFull

  datatype BuildResult = Built(image: Bytes) | Refused(error: BuildError)

  function Sectors(sizeMib: nat): nat { sizeMib * 1024 * 1024 / SEC }

  function GeometryFor(sizeMib: nat): Geometry
    requires SizeOk(sizeMib)
  {
    Geometry(Sectors(sizeMib), FatSecs(Sectors(sizeMib)), Clusters(Sectors(sizeMib)))
  }

  predicate SizeOk(sizeMib: nat) { 4085 <= Clusters(Sectors(sizeMib)) < 65525 }

  predicate NamedAll(ms: seq<Mapping>) { forall m <- ms :: Parts(m.dst) != [] }

  /** The exact condition under which an image is built. */
  predicate Accepted(sizeMib: nat, ms: seq<Mapping>) {
    SizeOk(sizeMib) && NamedAll(ms) && Total(TreeOf(ms)) <= Clusters(Sectors(sizeMib)) &&
    AllNames(TreeOf(ms), Fits83) && |TreeOf(ms)| <= ROOT_ENTRIES
  }

  method WriteBoot(img: array<u8>, g: Geometry)
    requires Sound(g) && img.Length == g.total * SEC && Blank(img[..], 0, img.Length)
    modifies img
    ensures Filled(img[..], 0, FatOff(g, 0), BootSector(g)) && Blank(img[..], FatOff(g, 0), img.Length)
  {
    hide Blank, Wrote, Filled, BootSector, Bpb;
    ghost var s0 := img[..];
    WriteSlice(img, 0, Bpb(g));
    ghost var s1 := img[..];
    WriteSlice(img, 510, [0x55, 0xAA]);
    BlankLess(s0, 0, FatOff(g, 0), |s0|);
    BootFilled(img[..], s1, s0, g, FatOff(g, 0));
    BlankMore(s0, 0, FatOff(g, 0), |s0|);
    BlankKept(s1, s0, 0, Bpb(g), FatOff(g, 0), |s0|);
    BlankKept(img[..], s1, 510, [0x55, 0xAA], FatOff(g, 0), |s0|);
  }

  lemma BlankMore(img: Bytes, lo: nat, mid: nat, hi: nat)
    requires lo <= mid && Blank(img, lo, hi)
    ensures Blank(img, mid, hi)
  {
  }

  /** Fills a region with w and leaves everything behind it blank. */
  method FillRegion(img: array<u8>, lo: nat, hi: nat, w: Bytes)
    requires lo + |w| <= hi <= img.Length && Blank(img[..], lo, img.Length)
    modifies img
    ensures Filled(img[..], lo, hi, w) && Blank(img[..], hi, img.Length)
    ensures Wrote(img[..], old(img[..]), lo, w)
  {
    hide Wrote, Filled, Blank;
    ghost var s := img[..];
    WriteSlice(img, lo, w);
    BlankLess(s, lo, hi, |s|);
    FilledBy(img[..], s, lo, w, hi);
    BlankMore(s, lo, hi, |s|);
    BlankKept(img[..], s, lo, w, hi, |s|);
  }

  lemma Offsets(g: Geometry)
    requires Sound(g)
    ensures FatOff(g, 0) == 4 * SEC && FatOff(g, 1) == FatOff(g, 0) + g.fatSecs * SEC
    ensures FatOff(g, 2) == RootOff(g) == FatOff(g, 1) + g.fatSecs * SEC
    ensures ClusterOff(g, 2) == RootOff(g) + ROOT_ENTRIES * 32
    ensures ClusterOff(g, 2) + g.clusters * SEC == g.total * SEC
  {
  }

  method WriteFats(img: array<u8>, g: Geometry, blob: Bytes)
    requires Sound(g) && img.Length == g.total * SEC && |blob| <= g.fatSecs * SEC
    requires Blank(img[..], FatOff(g, 0), img.Length)
    modifies img
    ensures Filled(img[..], FatOff(g, 0), FatOff(g, 1), blob) && Filled(img[..], FatOff(g, 1), RootOff(g), blob)
    ensures Blank(img[..], RootOff(g), img.Length)
    ensures forall lo: nat, v :: Filled(old(img[..]), lo, FatOff(g, 0), v) ==> Filled(img[..], lo, FatOff(g, 0), v)
  {
    hide Blank, Wrote, Filled, RootOff, FatOff, ClusterOff;
    Offsets(g);
    for n := 0 to NFATS
      invariant Blank(img[..], FatOff(g, n), img.Length)
      invariant n >= 1 ==> Filled(img[..], FatOff(g, 0), FatOff(g, 1), blob)
      invariant n >= 2 ==> Filled(img[..], FatOff(g, 1), FatOff(g, 2), blob)
      invariant forall lo: nat, v :: Filled(old(img[..]), lo, FatOff(g, 0), v) ==> Filled(img[..], lo, FatOff(g, 0), v)
    {
      ghost var s := img[..];
      FillRegion(img, FatOff(g, n), FatOff(g, n + 1), blob);
      if n == 1 { FilledKept(img[..], s, FatOff(g, 1), blob, FatOff(g, 0), FatOff(g, 1), blob); }
      forall lo: nat, v | Filled(old(img[..]), lo, FatOff(g, 0), v) ensures Filled(img[..], lo, FatOff(g, 0), v) {
        FilledKept(img[..], s, FatOff(g, n), blob, lo, FatOff(g, 0), v);
      }
    }
  }

  /** Lays out an image for a tree whose clusters are assigned. */
  method Assemble(g: Geometry, cs: seq<Node>, st: Stamp) returns (r: BuildResult)
    requires Sound(g) && LaidOut(cs, 2) && Total(cs) <= g.clusters
    ensures r.Built? <==> AllNames(cs, Fits83) && |cs| <= ROOT_ENTRIES
    ensures r.Built? ==> Volume(r.image, g, cs, st)
    ensures r == Refused(RootFull) <==> OwnFit(cs) && |cs| > ROOT_ENTRIES
    ensures r.Refused? ==> r.error == BadName || r.error == RootFull
  {
    var fat := FillFat(cs, g.clusters);
    var img := new u8[g.total * SEC](_ => 0);
    hide Blank, Wrote, Filled, BootSector, Pack, FatOf, Area, LaidOut, Fits83;
    Offsets(g);
    StartBlank(img[..]);
    WriteBoot(img, g);
    WriteFats(img, g, Pack(fat));
    ghost var s := img[..];
    var entries := PackEntries(cs, st);
    if entries.None? { return Refused(BadName); }
    if |entries.value| > ROOT_ENTRIES * 32 { return Refused(RootFull); }
    var ok := WriteRootAndBelow(img, g, cs, entries.value, st);
    if !ok { return Refused(BadName); }
    assert Filled(img[..], 0, FatOff(g, 0), BootSector(g));
    r := Built(img[..]);
  }

  lemma StartBlank(img: Bytes)
    requires forall b :: 0 <= b < |img| ==> img[b] == 0
    ensures Blank(img, 0, |img|)
  {
  }

  method WriteRootAndBelow(img: array<u8>, g: Geometry, cs: seq<Node>, entries: Bytes, st: Stamp) returns (ok: bool)
    requires Sound(g) && LaidOut(cs, 2) && Total(cs) <= g.clusters && img.Length == g.total * SEC
    requires entries == Entries(cs, st) && |entries| <= ROOT_ENTRIES * 32
    requires Blank(img[..], RootOff(g), img.Length)
    modifies img
    ensures ok <==> BelowFit(cs)
    ensures ok ==> Filled(img[..], RootOff(g), ClusterOff(g, 2), Entries(cs, st))
    ensures ok ==> Filled(img[..], ClusterOff(g, 2), img.Length, Area(cs, 0, st))
    ensures forall lo: nat, hi: nat, v ::
      ok && hi <= RootOff(g) && Filled(old(img[..]), lo, hi, v) ==> Filled(img[..], lo, hi, v)
  {
    hide Blank, Wrote, Filled, Area, Entries, RootOff;
    Offsets(g);
    ghost var s := img[..];
    FillRegion(img, RootOff(g), ClusterOff(g, 2), entries);
    ghost var t := img[..];
    BlankLess(t, ClusterOff(g, 2), ClusterOff(g, 2 + Total(cs)), |t|);
    ok := RenderAll(img, g, cs, 0, 2, st);
    if ok {
      FilledBy(img[..], t, ClusterOff(g, 2), Area(cs, 0, st), |t|);
      FilledKept(img[..], t, ClusterOff(g, 2), Area(cs, 0, st), RootOff(g), ClusterOff(g, 2), entries);
      forall lo: nat, hi: nat, v | hi <= RootOff(g) && Filled(s, lo, hi, v) ensures Filled(img[..], lo, hi, v) {
        FilledKept(t, s, RootOff(g), entries, lo, hi, v);
        FilledKept(img[..], t, ClusterOff(g, 2), Area(cs, 0, st), lo, hi, v);
      }
    }
  }

  /** Builds the image of a volume of sizeMib MiB with the given files. */
  method Build(sizeMib: nat, ms: seq<Mapping>, st: Stamp) returns (r: BuildResult)
    ensures r.Built? <==> Accepted(sizeMib, ms)
    ensures r.Built? ==> Volume(r.image, GeometryFor(sizeMib), Assigned(TreeOf(ms), 2), st)
    ensures r == Refused(BadSize) <==> !SizeOk(sizeMib)
    ensures r == Refused(NoName) <==> SizeOk(sizeMib) && !NamedAll(ms)
    ensures r == Refused(TooSmall) <==>
      SizeOk(sizeMib) && NamedAll(ms) && Total(TreeOf(ms)) > Clusters(Sectors(sizeMib))
    ensures r == Refused(RootFull) <==>
      SizeOk(sizeMib) && NamedAll(ms) && Total(TreeOf(ms)) <= Clusters(Sectors(sizeMib)) &&
      OwnFit(TreeOf(ms)) && |TreeOf(ms)| > ROOT_ENTRIES
  {
    hide Assigned, Total, AllNames, OwnFit, LaidOut, Volume, TreeOf, Clusters, FatSecs, Sectors;
    var fatSecs, clusters, _ := SizeFat(Sectors(sizeMib));
    if !(4085 <= clusters < 65525) { return Refused(BadSize); }
    var g := Geometry(Sectors(sizeMib), fatSecs, clusters);
    var tree := MakeTree(ms);
    if tree.None? { return Refused(NoName); }
    var cs, free := Assign(tree.value, 2);
    if free - 2 > clusters { return Refused(TooSmall); }
    AssignedFacts(tree.value, 2);
    r := Assemble(g, cs, st);
  }

  lemma AssignedFacts(cs: seq<Node>, at: nat)
    ensures LaidOut(Assigned(cs, at), at) && Total(Assigned(cs, at)) == Total(cs) && |Assigned(cs, at)| == |cs|
    ensures AllNames(Assigned(cs, at), Fits83) == AllNames(cs, Fits83) && OwnFit(Assigned(cs, at)) == OwnFit(cs)
  {
    hide Fits83;
    var ds := Assigned(cs, at);
    AssignedLaidOut(cs, at);
    AssignedSame(cs, at);
    SameTotal(ds, cs);
    SameNames(ds, cs, Fits83);
    assert forall i :: 0 <= i < |cs| ==> SameNode(ds[i], cs[i]);
  }
}
