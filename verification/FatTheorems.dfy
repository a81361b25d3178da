/** The round trip: an image that is built holds exactly the files it was built from. */
module FatTheorems {
  import opened Words
  import opened LittleEndian
  import opened FatNames
  import opened FatTree
  import opened FatLayout
  import opened FatWriter
  import opened FatReader
  import opened FatRoundTrip

  // ---- the boot sector -----------------------------------------------------------------------

  lemma SlicedField(a: Bytes, at: nat, b: Bytes, o: nat, n: nat)
    requires at + |b| <= |a| && a[at..at + |b|] == b && o + n <= |b|
    ensures n == 2 ==> U16(a, at + o) == U16(b, o)
    ensures n == 4 ==> U32(a, at + o) == U32(b, o)
  {
    var s, t := a[at + o..at + o + n], b[o..o + n];
    forall k | 0 <= k < n ensures s[k] == t[k] { assert a[at..at + |b|][o + k] == b[o + k]; }
    assert s == t;
    SameField(a, at + o, b, o, n);
  }

  lemma LayoutFields(img: Bytes)
    requires |img| >= 19 && img[11..19] == BpbLayout()
    ensures U16(img, 11) == 512 && img[13] == 1 && U16(img, 14) == 4 && img[16] == 2 && U16(img, 17) == 512
  {
    var b := BpbLayout();
    assert forall k :: 0 <= k < 8 ==> img[11 + k] == img[11..19][k];
    assert b[0..2] == Put16(SEC)[0..2] && b[3..5] == Put16(RESERVED)[0..2] && b[6..8] == Put16(ROOT_ENTRIES)[0..2];
    SameField(b, 0, Put16(SEC), 0, 2);
    SameField(b, 3, Put16(RESERVED), 0, 2);
    SameField(b, 6, Put16(ROOT_ENTRIES), 0, 2);
    SlicedField(img, 11, b, 0, 2);
    SlicedField(img, 11, b, 3, 2);
    SlicedField(img, 11, b, 6, 2);
  }

  lemma SizeFields(img: Bytes, g: Geometry)
    requires Sound(g) && |img| >= 36 && img[19..28] == BpbSizes(g) && img[28..36] == BpbTotal(g)
    ensures U16(img, 22) == g.fatSecs
    ensures (if U16(img, 19) != 0 then U16(img, 19) else U32(img, 32)) == g.total
  {
    var b, t := BpbSizes(g), BpbTotal(g);
    var small, large := if g.total < 0x1_0000 then g.total else 0, if g.total >= 0x1_0000 then g.total else 0;
    assert b[0..2] == Put16(small)[0..2] && b[3..5] == Put16(g.fatSecs)[0..2] && t[4..8] == Put32(large)[0..4];
    SameField(b, 0, Put16(small), 0, 2);
    SameField(b, 3, Put16(g.fatSecs), 0, 2);
    SameField(t, 4, Put32(large), 0, 4);
    SlicedField(img, 19, b, 0, 2);
    SlicedField(img, 19, b, 3, 2);
    SlicedField(img, 28, t, 4, 4);
  }

  lemma SameParts(a: Bytes, b: Bytes, lo: nat, hi: nat)
    requires lo <= hi <= |a| && hi <= |b| && forall k :: lo <= k < hi ==> a[k] == b[k]
    ensures a[lo..hi] == b[lo..hi]
  {
  }

  lemma BootParts(img: Bytes, g: Geometry)
    requires Sound(g) && |img| >= 512 && img[..512] == BootSector(g)
    ensures img[11..19] == BpbLayout() && img[19..28] == BpbSizes(g) && img[28..36] == BpbTotal(g)
    ensures img[54..62] == FS_TYPE && img[510] == 0x55 && img[511] == 0xAA
  {
    var b, p := BootSector(g), Bpb(g);
    assert p[54..62] == FS_TYPE by { assert p[36..62] == BpbLabels() && p[54..62] == BpbLabels()[18..26]; }
    assert p[11..19] == BpbLayout() && p[19..28] == BpbSizes(g) && p[28..36] == BpbTotal(g);
    hide BpbLayout, BpbSizes, BpbTotal, BpbLabels, Bpb;
    forall k | 0 <= k < 62 ensures img[k] == p[k] { assert img[k] == b[k] == p[k]; }
    SameParts(img, p, 11, 19);
    SameParts(img, p, 19, 28);
    SameParts(img, p, 28, 36);
    SameParts(img, p, 54, 62);
    assert img[510] == b[510] && img[511] == b[511];
  }

  lemma FilledStart(img: Bytes, lo: nat, hi: nat, w: Bytes)
    requires Filled(img, lo, hi, w)
    ensures lo + |w| <= |img| && img[lo..lo + |w|] == w
  {
    var s := img[lo..hi];
    assert s[..|w|] == w;
    assert img[lo..lo + |w|] == s[..|w|];
  }

  function ViewOf(img: Bytes, g: Geometry): View
    requires Sound(g) && |img| == g.total * SEC
  {
    Offsets(g);
    View(img, img[FatOff(g, 0)..FatOff(g, 1)], RootOff(g), ClusterOff(g, 2))
  }

  /** The reader finds the regions where the builder put them. */
  lemma Opened(img: Bytes, g: Geometry, cs: seq<Node>, st: Stamp)
    requires Volume(img, g, cs, st)
    ensures OpenVolume(img) == Ok(ViewOf(img, g))
  {
    hide Filled, BootSector, Area, Entries, Pack, FatOf, Total, BpbLayout, BpbSizes, BpbTotal;
    FilledStart(img, 0, FatOff(g, 0), BootSector(g));
    assert img[..512] == img[0..0 + |BootSector(g)|];
    BootParts(img, g);
    LayoutFields(img);
    SizeFields(img, g);
  }

  lemma PackedWord(ws: seq<nat>, fat: Bytes, j: nat)
    requires 2 * |ws| <= |fat| && fat[..2 * |ws|] == Pack(ws) && j < |ws| && ws[j] < 0x1_0000
    ensures U16(fat, 2 * j) == ws[j]
  {
    HalvesJoin(ws[j]);
    hide Low, High;
    assert fat[2 * j] == fat[..2 * |ws|][2 * j] == Low(ws[j]);
    assert fat[2 * j + 1] == fat[..2 * |ws|][2 * j + 1] == High(ws[j]);
  }

  lemma FatStart(img: Bytes, g: Geometry, cs: seq<Node>, st: Stamp)
    requires Volume(img, g, cs, st)
    ensures 2 * |FatOf(cs, g.clusters)| <= |ViewOf(img, g).fat|
    ensures ViewOf(img, g).fat[..2 * |FatOf(cs, g.clusters)|] == Pack(FatOf(cs, g.clusters))
  {
    hide Filled, Pack, Area, FatOf, Total, Entries, BootSector;
    Offsets(g);
    var n, fat := 2 * |FatOf(cs, g.clusters)|, ViewOf(img, g).fat;
    FilledStart(img, FatOff(g, 0), FatOff(g, 1), Pack(FatOf(cs, g.clusters)));
    assert fat[..n] == img[FatOff(g, 0)..FatOff(g, 0) + n];
  }

  lemma FatEntry(cs: seq<Node>, clusters: nat, i: nat)
    requires LaidOut(cs, 2) && i < Total(cs) <= clusters < 65525
    ensures FatOf(cs, clusters)[2 + i] == FatArea(cs)[i] < 0x1_0000
  {
    LinksFit(cs, 2);
    hide FatArea, Total, LaidOut;
    assert FatArea(cs)[i] in FatArea(cs);
  }

  lemma FatWords(cs: seq<Node>, clusters: nat, fat: Bytes, i: nat)
    requires LaidOut(cs, 2) && i < Total(cs) <= clusters < 65525
    requires 2 * |FatOf(cs, clusters)| <= |fat| && fat[..2 * |FatOf(cs, clusters)|] == Pack(FatOf(cs, clusters))
    ensures U16(fat, (2 + i) * 2) == FatArea(cs)[i]
  {
    hide Pack, FatArea, Total, LaidOut, FatOf;
    FatEntry(cs, clusters, i);
    PackedWord(FatOf(cs, clusters), fat, 2 + i);
  }

  /** Table entries and clusters are stored for the whole tree. */
  lemma VolumeStored(img: Bytes, g: Geometry, cs: seq<Node>, st: Stamp)
    requires Volume(img, g, cs, st) && LaidOut(cs, 2)
    ensures StoredForest(ViewOf(img, g), cs, 2, 0, st)
  {
    hide Filled, Pack, Area, FatArea, Total, LaidOut, Entries, BootSector, FatOf;
    Offsets(g);
    FilledStart(img, ClusterOff(g, 2), |img|, Area(cs, 0, st));
    FatStart(img, g, cs, st);
    forall i | 0 <= i < |FatArea(cs)| ensures U16(ViewOf(img, g).fat, (2 + i) * 2) == FatArea(cs)[i] {
      FatWords(cs, g.clusters, ViewOf(img, g).fat, i);
    }
  }

  lemma RootListed(img: Bytes, g: Geometry, cs: seq<Node>, st: Stamp)
    requires Volume(img, g, cs, st)
    ensures Listed(img[RootOff(g)..ClusterOff(g, 2)], 0, cs, st)
  {
    hide Entries, BootSector, Pack, FatOf, Area;
    Offsets(g);
    var blob := img[RootOff(g)..ClusterOff(g, 2)];
    assert blob[0..] == blob == Padded(Entries(cs, st), |blob|);
    PaddedListed(blob, 0, cs, st);
  }

  /** The files of a volume are what walking its tree finds. */
  lemma VolumeFiles(img: Bytes, g: Geometry, cs: seq<Node>, st: Stamp, limit: nat)
    requires Volume(img, g, cs, st) && LaidOut(cs, 2) && AllNames(cs, Fits83)
    ensures FilesOf(img, limit) == Walk(cs, [], map[], limit)
  {
    Opened(img, g, cs, st);
    VolumeStored(img, g, cs, st);
    RootListed(img, g, cs, st);
    hide Volume, StoredForest, LaidOut, Listed, Fits83, AllNames, OpenVolume, ReadFrom, Walk;
    var v := ViewOf(img, g);
    ReadForest(v, cs, 2, 0, st, img[v.rootStart..v.dataStart], 0, [], map[], limit);
  }

  lemma {:induction false} AllVisibleFit(cs: seq<Node>)
    requires AllNames(cs, Visible)
    ensures AllNames(cs, Fits83)
  {
    hide Visible, Fits83;
    forall i | 0 <= i < |cs| ensures Fits83(cs[i].name) && (cs[i].Dir? ==> AllNames(cs[i].children, Fits83)) {
      VisibleKept(cs[i].name);
      if cs[i].Dir? { AllVisibleFit(cs[i].children); }
    }
  }

  // ---- paths ------------------------------------------------------------------------------------

  lemma {:induction false} LookupNames(cs: seq<Node>, q: Path)
    requires AllNames(cs, Visible) && Lookup(cs, q).Some?
    ensures Names(q)
    decreases |q|
  {
    hide Canonical;
    var k := IndexOf(cs, q[0]);
    if cs[k].Dir? {
      LookupNames(cs[k].children, q[1..]);
      assert q == [q[0]] + q[1..];
    }
  }

  /** s is the text of a path to a file in the forest below prefix. */
  ghost predicate Reaches(cs: seq<Node>, prefix: Text, s: Text) {
    exists q: Path :: Lookup(cs, q).Some? && s == prefix + Join(q)
  }

  lemma LookupHead(cs: seq<Node>, q: Path)
    requires cs != [] && q != [] && (forall i, j :: 0 <= i < j < |cs| ==> cs[i].name != cs[j].name)
    ensures Lookup(cs, q) ==
      if q[0] != cs[0].name then Lookup(cs[1..], q)
      else match cs[0]
        case File(_, data, _, _) => if |q| == 1 then Some(data) else None
        case Dir(_, children, _, _) => Lookup(children, q[1..])
    ensures q[0] == cs[0].name ==> Lookup(cs[1..], q) == None
  {
    assert IndexOf(cs, q[0]) == if q[0] == cs[0].name then 0 else 1 + IndexOf(cs[1..], q[0]);
    if q[0] == cs[0].name {
      assert forall j :: 0 <= j < |cs[1..]| ==> cs[1..][j].name == cs[j + 1].name;
    }
  }

  lemma JoinCons(prefix: Text, n: Text, q: Path)
    ensures prefix + Join([n] + q) == prefix + [SLASH] + n + Join(q)
  {
    assert ([n] + q)[1..] == q;
  }

  lemma ReachesDown(cs: seq<Node>, prefix: Text, s: Text)
    requires cs != [] && Distinct(cs)
    ensures cs[0].File? && s == prefix + [SLASH] + cs[0].name ==> Reaches(cs, prefix, s)
    ensures cs[0].Dir? && Reaches(cs[0].children, prefix + [SLASH] + cs[0].name, s) ==> Reaches(cs, prefix, s)
    ensures Reaches(cs[1..], prefix, s) ==> Reaches(cs, prefix, s)
  {
    var c, path := cs[0], prefix + [SLASH] + cs[0].name;
    hide Join, IndexOf, Distinct;
    if c.File? {
      JoinCons(prefix, c.name, []);
      assert path + Join([]) == path && [c.name] + [] == [c.name] by { JoinNothing(); }
      HeadFound(cs, [c.name]);
    } else if Reaches(c.children, path, s) {
      var q: Path :| Lookup(c.children, q).Some? && s == path + Join(q);
      JoinCons(prefix, c.name, q);
      assert ([c.name] + q)[1..] == q;
      HeadFound(cs, [c.name] + q);
      assert Lookup(cs, [c.name] + q).Some?;
    }
    if Reaches(cs[1..], prefix, s) {
      var q: Path :| Lookup(cs[1..], q).Some? && s == prefix + Join(q);
      HeadFound(cs, q);
    }
  }

  lemma JoinNothing()
    ensures Join([]) == []
  {
  }

  lemma HeadFound(cs: seq<Node>, q: Path)
    requires cs != [] && Distinct(cs) && q != []
    ensures Lookup(cs[1..], q).Some? ==> Lookup(cs, q).Some?
    ensures q[0] == cs[0].name && cs[0].File? && |q| == 1 ==> Lookup(cs, q).Some?
    ensures q[0] == cs[0].name && cs[0].Dir? && Lookup(cs[0].children, q[1..]).Some? ==> Lookup(cs, q).Some?
  {
    LookupHead(cs, q);
  }

  /** Reading a forest only adds the files it reaches. */
  lemma {:induction false} CollectFrame(cs: seq<Node>, prefix: Text, files: Files, s: Text)
    requires Distinct(cs)
    ensures !Reaches(cs, prefix, s) ==>
      (s in Collect(cs, prefix, files) <==> s in files) && (s in files ==> Collect(cs, prefix, files)[s] == files[s])
  {
    if cs != [] {
      var c, path := cs[0], prefix + [SLASH] + cs[0].name;
      ReachesDown(cs, prefix, s);
      hide Reaches, Join;
      var fs := if c.File? then files[path := c.data] else Collect(c.children, path, files);
      if c.Dir? { CollectFrame(c.children, path, files, s); }
      CollectFrame(cs[1..], prefix, fs, s);
    }
  }

  /** Every file of a forest is collected under its path. */
  lemma {:induction false} CollectFound(cs: seq<Node>, prefix: Text, files: Files, q: Path, key: Text)
    requires Distinct(cs) && AllNames(cs, Visible) && Lookup(cs, q).Some? && key == prefix + Join(q)
    ensures key in Collect(cs, prefix, files) && Collect(cs, prefix, files)[key] == Lookup(cs, q).value
    decreases cs
  {
    hide Visible;
    var c, path := cs[0], prefix + [SLASH] + cs[0].name;
    var fs := if c.File? then files[path := c.data] else Collect(c.children, path, files);
    LookupHead(cs, q);
    if q[0] == c.name {
      assert key == path + Join(q[1..]);
      if c.Dir? {
        CollectFound(c.children, path, files, q[1..], key);
      } else {
        assert path + [] == path;
      }
      NotAgain(cs, prefix, q, key);
      CollectFrame(cs[1..], prefix, fs, key);
    } else {
      CollectFound(cs[1..], prefix, fs, q, key);
    }
  }

  /** A path that starts with the first name does not reach the rest. */
  lemma NotAgain(cs: seq<Node>, prefix: Text, q: Path, key: Text)
    requires cs != [] && Distinct(cs) && AllNames(cs, Visible)
    requires Lookup(cs, q).Some? && q[0] == cs[0].name && key == prefix + Join(q)
    ensures !Reaches(cs[1..], prefix, key)
  {
    hide Visible;
    if Reaches(cs[1..], prefix, key) {
      var p: Path :| Lookup(cs[1..], p).Some? && key == prefix + Join(p);
      LookupNames(cs, q);
      LookupNames(cs[1..], p);
      assert Join(p) == key[|prefix|..] == Join(q);
      JoinInjective(p, q);
      LookupHead(cs, q);
      assert false;
    }
  }

  // ---- what insertion keeps -----------------------------------------------------------------------

  lemma {:induction false} DepthWithin(cs: seq<Node>, b: nat)
    ensures Depth(cs) <= b <==> forall i :: 0 <= i < |cs| && cs[i].Dir? ==> 1 + Depth(cs[i].children) <= b
  {
    if cs != [] {
      DepthWithin(cs[1..], b);
      assert forall i :: 0 < i < |cs| ==> cs[i] == cs[1..][i - 1];
    }
  }

  lemma {:induction false} InsertKeeps(cs: seq<Node>, p: Path, data: Bytes, b: nat)
    requires p != [] && AllNames(cs, Visible) && (forall n <- p :: Visible(n)) && Depth(cs) <= b && |p| <= b + 1
    ensures AllNames(Insert(cs, p, data), Visible) && Depth(Insert(cs, p, data)) <= b
    decreases |p|
  {
    hide Visible;
    var k, ds := IndexOf(cs, p[0]), Insert(cs, p, data);
    assert p[0] in p && forall n <- p[1..] :: n in p;
    DepthWithin(cs, b);
    if |p| > 1 && k == |cs| {
      InsertKeeps([], p[1..], data, b - 1);
    } else if |p| > 1 && cs[k].Dir? {
      InsertKeeps(cs[k].children, p[1..], data, b - 1);
    }
    forall i | 0 <= i < |ds|
      ensures Visible(ds[i].name)
      ensures ds[i].Dir? ==> AllNames(ds[i].children, Visible) && 1 + Depth(ds[i].children) <= b
    { }
    DepthWithin(ds, b);
  }

  /** Every part of every destination is a name that is shown as it is, and none is deeper than limit. */
  ghost predicate Showable(ms: seq<Mapping>, limit: nat) {
    forall m <- ms :: Parts(m.dst) != [] && |Parts(m.dst)| <= limit + 1 && forall n <- Parts(m.dst) :: Visible(n)
  }

  lemma {:induction false} TreeKeeps(ms: seq<Mapping>, limit: nat)
    requires Showable(ms, limit)
    ensures AllNames(TreeOf(ms), Visible) && Depth(TreeOf(ms)) <= limit
  {
    hide Visible;
    if ms != [] {
      var m := ms[|ms| - 1];
      assert m in ms;
      TreeKeeps(ms[..|ms| - 1], limit);
      InsertKeeps(TreeOf(ms[..|ms| - 1]), Parts(m.dst), m.data, limit);
    }
  }

  lemma {:induction false} SameDepth(a: seq<Node>, b: seq<Node>)
    requires SameTree(a, b)
    ensures Depth(a) == Depth(b)
    decreases a
  {
    if a != [] {
      assert SameNode(a[0], b[0]);
      if a[0].Dir? { SameDepth(a[0].children, b[0].children); }
      assert forall i :: 0 <= i < |a[1..]| ==> a[1..][i] == a[i + 1] && b[1..][i] == b[i + 1];
      SameDepth(a[1..], b[1..]);
    }
  }

  // ---- the round trip ------------------------------------------------------------------------------

  /** files holds exactly the files of the tree, each under the text of its path. */
  ghost predicate HoldsTree(files: Files, cs: seq<Node>) {
    forall s: Text, d: Bytes :: (s in files && files[s] == d) <==> FileAt(cs, s, d)
  }

  ghost predicate FileAt(cs: seq<Node>, s: Text, d: Bytes) {
    exists q: Path :: Lookup(cs, q) == Some(d) && s == Join(q)
  }

  lemma CollectHolds(cs: seq<Node>)
    requires Distinct(cs) && AllNames(cs, Visible)
    ensures HoldsTree(Collect(cs, [], map[]), cs)
  {
    var files := Collect(cs, [], map[]);
    forall s: Text, d: Bytes ensures (s in files && files[s] == d) <==> FileAt(cs, s, d) {
      CollectFrame(cs, [], map[], s);
      if s in files && files[s] == d {
        var q: Path :| Lookup(cs, q).Some? && s == [] + Join(q);
        assert [] + Join(q) == Join(q);
        CollectFound(cs, [], map[], q, s);
      }
      if FileAt(cs, s, d) {
        var q: Path :| Lookup(cs, q) == Some(d) && s == Join(q);
        assert [] + Join(q) == Join(q);
        CollectFound(cs, [], map[], q, s);
      }
    }
  }

  lemma AssignedKeeps(cs: seq<Node>)
    requires Distinct(cs)
    ensures LaidOut(Assigned(cs, 2), 2) && SameTree(Assigned(cs, 2), cs) && Distinct(Assigned(cs, 2))
    ensures AllNames(Assigned(cs, 2), Visible) == AllNames(cs, Visible) && Depth(Assigned(cs, 2)) == Depth(cs)
  {
    hide Visible;
    AssignedLaidOut(cs, 2);
    AssignedSame(cs, 2);
    SameNames(Assigned(cs, 2), cs, Visible);
    SameDistinct(Assigned(cs, 2), cs);
    SameDepth(Assigned(cs, 2), cs);
  }

  /**
   * Reading back an image that was built: exactly the files of the tree, under their paths, with
   * their contents, whatever list of destinations made the tree.
   */
  lemma TreeRoundTrip(img: Bytes, g: Geometry, ms: seq<Mapping>, st: Stamp, limit: nat)
    requires Showable(ms, limit) && Volume(img, g, Assigned(TreeOf(ms), 2), st)
    ensures FilesOf(img, limit).Ok? && HoldsTree(FilesOf(img, limit).value, TreeOf(ms))
  {
    var tree, cs := TreeOf(ms), Assigned(TreeOf(ms), 2);
    TreeDistinct(ms);
    TreeKeeps(ms, limit);
    AssignedKeeps(tree);
    hide Volume, Visible, Fits83, TreeOf, Assigned, FilesOf, Collect, Walk;
    hide SameTree, LaidOut, AllNames, Distinct, Depth, Showable, HoldsTree;
    AllVisibleFit(cs);
    VolumeFiles(img, g, cs, st, limit);
    WalkCollects(cs, [], map[], limit);
    CollectHolds(cs);
    SameHolds(FilesOf(img, limit).value, cs, tree);
  }

  lemma SameHolds(files: Files, cs: seq<Node>, ds: seq<Node>)
    requires SameTree(cs, ds) && HoldsTree(files, cs)
    ensures HoldsTree(files, ds)
  {
    forall s: Text, d: Bytes ensures FileAt(cs, s, d) <==> FileAt(ds, s, d) {
      forall q: Path ensures Lookup(cs, q) == Lookup(ds, q) { SameLookup(cs, ds, q); }
    }
  }

  /** The reader returned exactly the list: the same paths with the same bytes. */
  ghost predicate Returned(r: Outcome<Files>, ms: seq<Mapping>) {
    r.Ok? && forall s: Text, d: Bytes :: (s in r.value && r.value[s] == d) <==> Mapping(s, d) in ms
  }

  /** Consistent showable destinations, written as the reader writes paths, come back. */
  lemma RoundTrip(img: Bytes, g: Geometry, ms: seq<Mapping>, st: Stamp, limit: nat)
    requires Showable(ms, limit) && Consistent(ms) && (forall m <- ms :: Join(Parts(m.dst)) == m.dst)
    requires Volume(img, g, Assigned(TreeOf(ms), 2), st)
    ensures Returned(FilesOf(img, limit), ms)
  {
    TreeRoundTrip(img, g, ms, st, limit);
    var files := FilesOf(img, limit).value;
    hide Volume, Visible, TreeOf, Assigned, FilesOf;
    forall s: Text, d: Bytes ensures (s in files && files[s] == d) <==> Mapping(s, d) in ms {
      assert (s in files && files[s] == d) <==> FileAt(TreeOf(ms), s, d);
      ListedFile(ms, s, d);
    }
  }

  lemma ListedFile(ms: seq<Mapping>, s: Text, d: Bytes)
    requires Consistent(ms) && (forall m <- ms :: Parts(m.dst) != [] && Join(Parts(m.dst)) == m.dst)
    ensures FileAt(TreeOf(ms), s, d) <==> Mapping(s, d) in ms
  {
    hide Join, Parts, TreeOf;
    if FileAt(TreeOf(ms), s, d) {
      var q: Path :| Lookup(TreeOf(ms), q) == Some(d) && s == Join(q);
      TreeHolds(ms, q, d);
      var m :| m in ms && Parts(m.dst) == q && m.data == d;
      assert m == Mapping(s, d);
    }
    if Mapping(s, d) in ms {
      TreeHolds(ms, Parts(s), d);
      assert Lookup(TreeOf(ms), Parts(s)) == Some(d) by { assert Given(ms, Parts(s), d); }
    }
  }

  // ---- the layout --------------------------------------------------------------------------------------

  /** All nodes of a forest, in the order of their clusters. */
  function Preorder(cs: seq<Node>): seq<Node> {
    if cs == [] then []
    else [cs[0]] + (if cs[0].Dir? then Preorder(cs[0].children) else []) + Preorder(cs[1..])
  }

  ghost predicate InRange(c: Node, lo: nat, hi: nat) {
    c.nclusters > 0 ==> lo <= c.cluster && c.cluster + c.nclusters <= hi
  }

  ghost predicate Below(c: Node, d: Node) {
    c.nclusters > 0 && d.nclusters > 0 ==> c.cluster + c.nclusters <= d.cluster
  }

  /** The cluster ranges of all nodes lie in the forest's range, one after the other. */
  lemma {:induction false} RangesApart(cs: seq<Node>, at: nat)
    requires LaidOut(cs, at)
    ensures forall c <- Preorder(cs) :: InRange(c, at, at + Total(cs))
    ensures forall i, j :: 0 <= i < j < |Preorder(cs)| ==> Below(Preorder(cs)[i], Preorder(cs)[j])
  {
    if cs != [] {
      var c := cs[0];
      var kids, rest := if c.Dir? then Preorder(c.children) else [], Preorder(cs[1..]);
      if c.Dir? { RangesApart(c.children, at + Own(c)); }
      RangesApart(cs[1..], at + Size(c));
      forall i, j | 0 <= i < j < |Preorder(cs)| ensures Below(Preorder(cs)[i], Preorder(cs)[j]) {
        var x, y := Preorder(cs)[i], Preorder(cs)[j];
        assert j < 1 + |kids| ==> y in kids;
        assert j >= 1 + |kids| ==> y in rest;
        assert 0 < i < 1 + |kids| ==> x in kids;
      }
    }
  }

  /** The contents of an image are determined by its tree: builds are reproducible, and both FATs agree. */
  lemma VolumeUnique(img: Bytes, img': Bytes, g: Geometry, cs: seq<Node>, st: Stamp)
    requires Volume(img, g, cs, st) && Volume(img', g, cs, st)
    ensures img == img' && img[FatOff(g, 0)..FatOff(g, 1)] == img[FatOff(g, 1)..RootOff(g)]
  {
    Offsets(g);
    hide BootSector, Area, Entries, Pack, FatOf, Padded, ClusterOff, RootOff, FatOff;
    var a, b, c, d := FatOff(g, 0), FatOff(g, 1), RootOff(g), ClusterOff(g, 2);
    FiveParts(img, a, b, c, d);
    FiveParts(img', a, b, c, d);
  }

  lemma FiveParts(s: Bytes, a: nat, b: nat, c: nat, d: nat)
    requires a <= b <= c <= d <= |s|
    ensures s == s[0..a] + s[a..b] + s[b..c] + s[c..d] + s[d..|s|]
  {
  }
}
