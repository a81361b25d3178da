/** What the reader finds in an image that the builder wrote. */
module FatRoundTrip {
  import opened Words
  import opened LittleEndian
  import opened Slices
  import opened FatNames
  import opened FatTree
  import opened FatLayout
  import opened FatWriter
  import opened FatReader

  // ---- stored runs of clusters --------------------------------------------------------------

  /** The FAT entries from cluster at on are links, and the clusters hold area. */
  ghost predicate Stored(v: View, at: nat, links: seq<nat>, area: Bytes) {
    at >= 2 && |area| == |links| * SECTOR && ClusterAt(v, at) + |area| <= |v.img| && (at + |links|) * 2 <= |v.fat| &&
    (forall i :: 0 <= i < |links| ==> U16(v.fat, (at + i) * 2) == links[i]) &&
    v.img[ClusterAt(v, at)..ClusterAt(v, at) + |area|] == area
  }

  lemma StoredSplit(v: View, at: nat, l: seq<nat>, l': seq<nat>, a: Bytes, a': Bytes)
    requires Stored(v, at, l + l', a + a') && |a| == |l| * SECTOR
    ensures Stored(v, at, l, a) && Stored(v, at + |l|, l', a')
  {
    var off := ClusterAt(v, at);
    var s := v.img[off..off + |a + a'|];
    assert s[..|a|] == a && s[|a|..] == a';
    assert v.img[off..off + |a|] == s[..|a|] && v.img[off + |a|..off + |a| + |a'|] == s[|a|..];
    forall i | 0 <= i < |l| ensures U16(v.fat, (at + i) * 2) == l[i] { assert (l + l')[i] == l[i]; }
    forall i | 0 <= i < |l'| ensures U16(v.fat, (at + |l| + i) * 2) == l'[i] { assert (l + l')[|l| + i] == l'[i]; }
  }

  function Run(at: nat, n: nat): (r: seq<nat>)
    ensures |r| == n
  {
    seq(n, i requires 0 <= i < n => at + i)
  }

  lemma RunStep(v: View, at: nat, n: nat, area: Bytes, i: nat)
    requires i < n && Stored(v, at, Chain(at, n), area) && at + n <= END_OF_CHAIN
    ensures InVolume(v, at + i) && Next(v, at + i) == if i + 1 < n then at + i + 1 else 0xFFFF
    ensures ClusterBytes(v, at + i) == area[i * SECTOR..(i + 1) * SECTOR]
  {
    assert Chain(at, n)[i] == if i + 1 < n then at + i + 1 else 0xFFFF;
    var off := ClusterAt(v, at);
    SubSlice(v.img, off, off + |area|, i * SECTOR, (i + 1) * SECTOR);
  }

  lemma {:induction false} RunIsChain(v: View, at: nat, n: nat, area: Bytes, i: nat)
    requires i < n && Stored(v, at, Chain(at, n), area) && at + n <= END_OF_CHAIN
    ensures IsChain(v, at + i, Run(at + i, n - i))
    decreases n - i
  {
    hide Stored, InVolume, Next;
    RunStep(v, at, n, area, i);
    var run := Run(at + i, n - i);
    assert run[1..] == Run(at + i + 1, n - i - 1);
    if i + 1 < n {
      RunIsChain(v, at, n, area, i + 1);
    } else {
      assert IsChain(v, 0xFFFF, run[1..]);
    }
  }

  lemma {:induction false} RunContents(v: View, at: nat, n: nat, area: Bytes, i: nat)
    requires i <= n && Stored(v, at, Chain(at, n), area) && at + n <= END_OF_CHAIN
    ensures forall c <- Run(at + i, n - i) :: InVolume(v, c)
    ensures i * SECTOR <= |area| && Contents(v, Run(at + i, n - i)) == area[i * SECTOR..]
    decreases n - i
  {
    var run := Run(at + i, n - i);
    assert |area| == n * SECTOR;
    hide Stored, InVolume, ClusterBytes, Chain, Next;
    if i < n {
      RunStep(v, at, n, area, i);
      RunContents(v, at, n, area, i + 1);
      assert run[1..] == Run(at + i + 1, n - i - 1);
      assert area[i * SECTOR..] == area[i * SECTOR..(i + 1) * SECTOR] + area[(i + 1) * SECTOR..];
    }
  }

  /** A stored chain is read back whole. */
  lemma ReadRun(v: View, at: nat, n: nat, area: Bytes)
    requires n > 0 && Stored(v, at, Chain(at, n), area) && at + n <= END_OF_CHAIN
    ensures Follow(v, at, {}, []) == Ok(area)
  {
    RunIsChain(v, at, n, area, 0);
    RunContents(v, at, n, area, 0);
    FollowExact(v, at);
    assert Run(at + 0, n - 0) == Run(at, n) && area[0..] == area;
  }

  // ---- entries ----------------------------------------------------------------------------------

  /** Names that the reader shows as they are. */
  predicate Visible(n: Text) {
    Canonical(n) && IsName(n) && n[0] != 0 && n != [DOT] && n != [DOT, DOT]
  }

  predicate Dots(n: Text) { n == [DOT] || n == [DOT, DOT] }

  /** The name under which the reader lists an entry that was made for n. */
  function ShownAs(n: Text): Text { Shown(Upper(n)) }

  /** An entry for n neither ends the directory nor is skipped as a directory's own. */
  predicate Kept(n: Text) { RawName(n)[0] != 0 && !Dots(ShownAs(n)) }

  /** Of the names that fit, exactly the visible ones are kept and shown as they are. */
  lemma VisibleExact(n: Text)
    requires IsName(n) && Fits83(n)
    ensures Visible(n) <==> Kept(n) && ShownAs(n) == n
  {
    NameRoundTrip(n);
    ShownName(n);
    if ShownAs(n) == n { CanonicalRaw(n); }
  }

  lemma CanonicalRaw(n: Text)
    requires Canonical(n) && IsName(n)
    ensures Fits83(n) && RawName(n)[0] == n[0]
  {
    NameRoundTrip(n);
    SplitJoins(n);
    assert Upper(n) == n;
    assert BaseOf(n)[0] == n[0];
  }

  lemma HalvesJoin(v: nat)
    ensures v < 0x1_0000 ==> Low(v) + 256 * High(v) == v
    ensures v < TWO32 ==> Low(v) + 256 * High(v) + 0x1_0000 * (Low(v / 0x1_0000) + 256 * High(v / 0x1_0000)) == v
  {
  }

  lemma DirentFields(raw: Bytes, attr: u8, cluster: u16, size: u32, st: Stamp)
    requires |raw| == 11
    ensures Dirent(raw, attr, cluster, size, st)[..11] == raw && Dirent(raw, attr, cluster, size, st)[0] == raw[0]
    ensures Dirent(raw, attr, cluster, size, st)[11] == attr
    ensures U16(Dirent(raw, attr, cluster, size, st), 26) == cluster
    ensures U32(Dirent(raw, attr, cluster, size, st), 28) == size
  {
    hide Low, High, Stamped;
    var d := Dirent(raw, attr, cluster, size, st);
    assert d[..11] == raw;
    HalvesJoin(cluster);
    HalvesJoin(size);
    assert U16(d, 26) == Low(cluster) + 256 * High(cluster);
    assert U16(d, 28) == Low(size) + 256 * High(size);
    assert U16(d, 30) == Low(size / 0x1_0000) + 256 * High(size / 0x1_0000);
  }

  function SlotOf(c: Node): Slot {
    match c
    case File(name, data, cluster, _) => Slot(name, false, cluster, |data|)
    case Dir(name, _, cluster, _) => Slot(name, true, cluster, 0)
  }

  /** What the reader makes of any entry that the builder writes. */
  lemma ReadEntry(c: Node, st: Stamp)
    requires Fits83(c.name) && c.cluster < 0x1_0000 && (c.File? ==> |c.data| < TWO32)
    ensures Entry(c, st)[0] == RawName(c.name)[0]
    ensures ReadSlot(Entry(c, st)) == Ok(if Dots(ShownAs(c.name)) then None else Some(SlotOf(c).(name := ShownAs(c.name))))
  {
    hide Dirent, Name83, ShortName, Shown, Upper;
    ShownName(c.name);
    assert RawName(c.name)[0] < 128;
    match c
    case File(name, data, cluster, _) => DirentFields(RawName(name), ATTR_ARCHIVE, cluster, |data|, st);
    case Dir(name, _, cluster, _) => DirentFields(RawName(name), ATTR_DIR, cluster, 0, st);
  }

  /** An entry is read as its node if and only if its name is visible. */
  lemma EntryExact(c: Node, st: Stamp)
    requires IsName(c.name) && Fits83(c.name) && c.cluster < 0x1_0000 && (c.File? ==> |c.data| < TWO32)
    ensures Entry(c, st)[0] != 0 && ReadSlot(Entry(c, st)) == Ok(Some(SlotOf(c))) <==> Visible(c.name)
  {
    hide Entry, ReadSlot, Visible, Fits83, RawName, ShownAs;
    ReadEntry(c, st);
    VisibleExact(c.name);
  }

  lemma ReadDots(cluster: u16, st: Stamp)
    ensures var d := Dirent(DOT_NAME, ATTR_DIR, cluster, 0, st); d[0] != 0 && ReadSlot(d) == Ok(None)
    ensures var d := Dirent(DOTDOT_NAME, ATTR_DIR, cluster, 0, st); d[0] != 0 && ReadSlot(d) == Ok(None)
  {
    DirentFields(DOT_NAME, ATTR_DIR, cluster, 0, st);
    DirentFields(DOTDOT_NAME, ATTR_DIR, cluster, 0, st);
    hide Dirent;
    DotNames();
  }

  lemma DotNames()
    ensures ShortName(DOT_NAME) == Some([DOT]) && ShortName(DOTDOT_NAME) == Some([DOT, DOT])
  {
    StripPadding([DOT], 7);
    StripPadding([DOT, DOT], 6);
    StripPadding([], 3);
    assert DOT_NAME[..8] == [DOT] + seq(7, _ => SPACE) && DOT_NAME[8..] == [] + seq(3, _ => SPACE);
    assert DOTDOT_NAME[..8] == [DOT, DOT] + seq(6, _ => SPACE) && DOTDOT_NAME[8..] == [] + seq(3, _ => SPACE);
  }

  // ---- directories ----------------------------------------------------------------------------------

  /** The directory contents blob lists the nodes cs from off on, and then ends. */
  ghost predicate Listed(blob: Bytes, off: nat, cs: seq<Node>, st: Stamp) {
    off + 32 * |cs| <= |blob| && blob[off..off + 32 * |cs|] == Entries(cs, st) && Stops(blob, off + 32 * |cs|)
  }

  lemma ListedStep(blob: Bytes, off: nat, cs: seq<Node>, st: Stamp)
    requires cs != [] && Listed(blob, off, cs, st)
    ensures blob[off..off + 32] == Entry(cs[0], st) && Listed(blob, off + 32, cs[1..], st)
  {
    hide Entry;
    var s := blob[off..off + 32 * |cs|];
    assert s[..32] == Entry(cs[0], st) && s[32..] == Entries(cs[1..], st);
    assert blob[off..off + 32] == s[..32] && blob[off + 32..off + 32 + 32 * |cs[1..]|] == s[32..];
  }

  /** Entries padded with zeros to whole entries are listed. */
  lemma PaddedListed(blob: Bytes, off: nat, cs: seq<Node>, st: Stamp)
    requires off + 32 * |cs| <= |blob| && off % 32 == 0 && |blob| % 32 == 0
    requires blob[off..] == Padded(Entries(cs, st), |blob| - off)
    ensures Listed(blob, off, cs, st)
  {
    hide Entries;
    var n := off + 32 * |cs|;
    var s := blob[off..];
    assert blob[off..n] == s[..n - off] == Entries(cs, st);
    if n < |blob| { assert blob[n] == s[n - off] == 0; }
  }

  /** The clusters of a forest hold it. */
  ghost predicate StoredForest(v: View, cs: seq<Node>, at: nat, parent: nat, st: Stamp) {
    LaidOut(cs, at) && at + Total(cs) <= END_OF_CHAIN && Stored(v, at, FatArea(cs), Area(cs, parent, st))
  }

  ghost predicate StoredNode(v: View, c: Node, at: nat, parent: nat, st: Stamp) {
    c.cluster == (if Own(c) == 0 then 0 else at) && at + Own(c) <= END_OF_CHAIN &&
    Stored(v, at, Chain(c.cluster, Own(c)), Padded(Blob(c, parent, st), Own(c) * SEC))
  }

  lemma ForestSplit(v: View, cs: seq<Node>, at: nat, parent: nat, st: Stamp)
    requires cs != [] && StoredForest(v, cs, at, parent, st)
    ensures NodeLaidOut(cs[0], at) && at + Size(cs[0]) <= END_OF_CHAIN
    ensures Stored(v, at, FatLayout.Links(cs[0]), NodeArea(cs[0], parent, st))
    ensures StoredForest(v, cs[1..], at + Size(cs[0]), parent, st)
  {
    hide Stored, NodeLaidOut, FatLayout.Links, NodeArea, Size, FatArea, Area, Total, LaidOut;
    assert cs[0..] == cs;
    LinksStep(cs, 0, at);
    AreaStep(cs, 0, parent, st);
    StoredSplit(v, at, FatLayout.Links(cs[0]), FatArea(cs[1..]), NodeArea(cs[0], parent, st), Area(cs[1..], parent, st));
  }

  lemma NodeSplit(v: View, c: Node, at: nat, parent: nat, st: Stamp)
    requires NodeLaidOut(c, at) && at + Size(c) <= END_OF_CHAIN
    requires Stored(v, at, FatLayout.Links(c), NodeArea(c, parent, st))
    ensures StoredNode(v, c, at, parent, st)
    ensures c.Dir? ==> StoredForest(v, c.children, at + Own(c), c.cluster, st)
  {
    hide Stored, Chain, Padded, Blob, FatArea, Area, LaidOut;
    var l, a := Chain(c.cluster, Own(c)), Padded(Blob(c, parent, st), Own(c) * SEC);
    if c.Dir? {
      StoredSplit(v, at, l, FatArea(c.children), a, Area(c.children, c.cluster, st));
    } else {
      assert l + [] == l && a + [] == a;
    }
  }

  lemma ReadFile(v: View, c: Node, at: nat, parent: nat, st: Stamp)
    requires c.File? && StoredNode(v, c, at, parent, st)
    ensures c.cluster < 0x1_0000 && |c.data| < TWO32 && ChainBytes(v, c.cluster, Some(|c.data|)) == Ok(c.data)
  {
    hide Follow, Stored;
    assert at >= 2 by { StoredAt(v, at, Chain(c.cluster, Own(c)), Padded(c.data, Own(c) * SEC)); }
    if c.data != [] {
      ReadRun(v, at, Own(c), Padded(c.data, Own(c) * SEC));
      assert Padded(c.data, Own(c) * SEC)[..|c.data|] == c.data;
    }
  }

  lemma StoredAt(v: View, at: nat, links: seq<nat>, area: Bytes)
    requires Stored(v, at, links, area)
    ensures at >= 2
  {
  }

  lemma ReadDir(v: View, c: Node, at: nat, parent: nat, st: Stamp)
    requires c.Dir? && StoredNode(v, c, at, parent, st)
    ensures c.cluster < 0x1_0000 && ChainBytes(v, c.cluster, None) == Ok(Padded(Blob(c, parent, st), Own(c) * SEC))
  {
    hide Follow, Stored, Blob, Padded;
    StoredAt(v, at, Chain(c.cluster, Own(c)), Padded(Blob(c, parent, st), Own(c) * SEC));
    ReadRun(v, at, Own(c), Padded(Blob(c, parent, st), Own(c) * SEC));
  }

  /** A subdirectory lists itself, its parent and its children. */
  lemma DirListed(c: Node, parent: nat, st: Stamp)
    requires c.Dir?
    ensures var blob := Padded(Blob(c, parent, st), Own(c) * SEC);
      |blob| >= 64 && Listed(blob, 64, c.children, st) &&
      blob[0..32] == Dirent(DOT_NAME, ATTR_DIR, c.cluster % 0x1_0000, 0, st) &&
      blob[32..64] == Dirent(DOTDOT_NAME, ATTR_DIR, parent % 0x1_0000, 0, st)
  {
    hide Dirent, Entries;
    var full, n := Blob(c, parent, st), Own(c) * SEC;
    BlobParts(c, parent, st);
    hide Blob, Own, Listed;
    PaddedParts(full, n);
    hide Padded;
    PaddedListed(Padded(full, n), 64, c.children, st);
  }

  lemma PaddedParts(b: Bytes, n: nat)
    requires 64 <= |b| <= n
    ensures Padded(b, n)[0..32] == b[0..32] && Padded(b, n)[32..64] == b[32..64]
    ensures Padded(b, n)[64..] == Padded(b[64..], n - 64)
  {
  }

  lemma BlobParts(c: Node, parent: nat, st: Stamp)
    requires c.Dir?
    ensures |Blob(c, parent, st)| == 64 + 32 * |c.children| && Blob(c, parent, st)[64..] == Entries(c.children, st)
    ensures Blob(c, parent, st)[0..32] == Dirent(DOT_NAME, ATTR_DIR, c.cluster % 0x1_0000, 0, st)
    ensures Blob(c, parent, st)[32..64] == Dirent(DOTDOT_NAME, ATTR_DIR, parent % 0x1_0000, 0, st)
  {
    hide Dirent, Entries;
  }

  lemma SkipDots(v: View, c: Node, parent: nat, st: Stamp, blob: Bytes, path: Text, files: Files, depth: nat)
    requires c.Dir? && blob == Padded(Blob(c, parent, st), Own(c) * SEC)
    ensures ReadFrom(v, blob, 0, path, files, depth) == ReadFrom(v, blob, 64, path, files, depth)
  {
    hide Dirent, Blob, Listed, ReadSlot, Padded, Own, ReadFrom;
    DirListed(c, parent, st);
    ReadDots(c.cluster % 0x1_0000, st);
    ReadDots(parent % 0x1_0000, st);
    assert blob[0] == blob[0..32][0] && blob[32] == blob[32..64][0];
    SkipOne(v, blob, 0, path, files, depth);
    SkipOne(v, blob, 32, path, files, depth);
  }

  lemma SkipOne(v: View, blob: Bytes, off: nat, prefix: Text, files: Files, depth: nat)
    requires off + 32 <= |blob| && blob[off..off + 32][0] != 0 && ReadSlot(blob[off..off + 32]) == Ok(None)
    ensures ReadFrom(v, blob, off, prefix, files, depth) == ReadFrom(v, blob, off + 32, prefix, files, depth)
  {
  }

  lemma ReadStep(v: View, blob: Bytes, off: nat, prefix: Text, files: Files, depth: nat, slot: Slot, got: Outcome<Files>)
    requires off + 32 <= |blob| && blob[off..off + 32][0] != 0 && ReadSlot(blob[off..off + 32]) == Ok(Some(slot))
    requires ReadInto(v, slot, prefix, files, depth) == got
    ensures ReadFrom(v, blob, off, prefix, files, depth) ==
      if got.Bad? then got else ReadFrom(v, blob, off + 32, prefix, got.value, depth)
  {
    hide ReadSlot, ReadInto;
    assert blob[off] == blob[off..off + 32][0];
  }

  lemma ReadStop(v: View, blob: Bytes, off: nat, prefix: Text, files: Files, depth: nat)
    requires off + 32 <= |blob| && blob[off..off + 32][0] == 0
    ensures ReadFrom(v, blob, off, prefix, files, depth) == Ok(files)
  {
    assert blob[off] == blob[off..off + 32][0];
  }

  // ---- the whole tree ----------------------------------------------------------------------------------

  function Depth(cs: seq<Node>): nat {
    if cs == [] then 0
    else
      var d, r := (if cs[0].Dir? then 1 + Depth(cs[0].children) else 0), Depth(cs[1..]);
      if d > r then d else r
  }

  /** All files of a forest, in the order in which they are read. */
  function Collect(cs: seq<Node>, prefix: Text, files: Files): Files {
    if cs == [] then files
    else
      var path := prefix + [SLASH] + cs[0].name;
      var fs := match cs[0]
        case File(_, data, _, _) => files[path := data]
        case Dir(_, children, _, _) => Collect(children, path, files);
      Collect(cs[1..], prefix, fs)
  }

  /**
   * What the reader makes of a forest: an entry that starts with zero ends its directory, the names of
   * a directory for itself and its parent are skipped, and the rest goes by the name that is shown.
   */
  function Walk(cs: seq<Node>, prefix: Text, files: Files, depth: nat): Outcome<Files>
    decreases cs
  {
    if cs == [] || RawName(cs[0].name)[0] == 0 then Ok(files)
    else if Dots(ShownAs(cs[0].name)) then Walk(cs[1..], prefix, files, depth)
    else
      var got := WalkNode(cs[0], prefix + [SLASH] + ShownAs(cs[0].name), files, depth);
      if got.Bad? then got else Walk(cs[1..], prefix, got.value, depth)
  }

  function WalkNode(c: Node, path: Text, files: Files, depth: nat): Outcome<Files>
    decreases c
  {
    match c
    case File(_, data, _, _) => Ok(files[path := data])
    case Dir(_, children, _, _) => if depth == 0 then Bad(TooDeep) else Walk(children, path, files, depth - 1)
  }

  lemma IntoFile(v: View, c: Node, at: nat, parent: nat, st: Stamp, name: Text, prefix: Text, files: Files, depth: nat)
    requires c.File? && StoredNode(v, c, at, parent, st)
    ensures c.cluster < 0x1_0000 && |c.data| < TWO32
    ensures ReadInto(v, SlotOf(c).(name := name), prefix, files, depth) ==
      WalkNode(c, prefix + [SLASH] + name, files, depth)
  {
    ReadFile(v, c, at, parent, st);
    hide StoredNode, ChainBytes;
  }

  lemma IntoDir(v: View, c: Node, at: nat, parent: nat, st: Stamp, blob: Bytes, name: Text, prefix: Text, files: Files,
                depth: nat)
    requires c.Dir? && StoredNode(v, c, at, parent, st)
    requires blob == Padded(Blob(c, parent, st), Own(c) * SEC)
    ensures c.cluster < 0x1_0000
    ensures ReadInto(v, SlotOf(c).(name := name), prefix, files, depth) ==
      if depth == 0 then Bad(TooDeep) else ReadFrom(v, blob, 64, prefix + [SLASH] + name, files, depth - 1)
  {
    hide StoredNode, ChainBytes, ReadFrom, Blob, Padded, Own;
    ReadDir(v, c, at, parent, st);
    if depth > 0 { SkipDots(v, c, parent, st, blob, prefix + [SLASH] + name, files, depth - 1); }
  }

  /** Reading the node of an entry is walking it. */
  lemma ReadNode(v: View, c: Node, at: nat, parent: nat, st: Stamp, name: Text, prefix: Text, files: Files, depth: nat)
    requires StoredNode(v, c, at, parent, st) && (c.Dir? ==> StoredForest(v, c.children, at + Own(c), c.cluster, st))
    requires c.Dir? ==> AllNames(c.children, Fits83)
    ensures c.cluster < 0x1_0000 && (c.File? ==> |c.data| < TWO32)
    ensures ReadInto(v, SlotOf(c).(name := name), prefix, files, depth) ==
      WalkNode(c, prefix + [SLASH] + name, files, depth)
    decreases c, 0
  {
    hide StoredForest, StoredNode, ReadFrom, ReadInto, Walk, Padded, Blob, Listed, AllNames, SlotOf, Own;
    if c.File? {
      IntoFile(v, c, at, parent, st, name, prefix, files, depth);
    } else {
      var sub := Padded(Blob(c, parent, st), Own(c) * SEC);
      IntoDir(v, c, at, parent, st, sub, name, prefix, files, depth);
      DirListed(c, parent, st);
      if depth > 0 {
        ReadForest(v, c.children, at + Own(c), c.cluster, st, sub, 64, prefix + [SLASH] + name, files, depth - 1);
      }
    }
  }

  /** The reader, applied to a stored forest, walks it. */
  lemma {:induction false} ReadForest(v: View, cs: seq<Node>, at: nat, parent: nat, st: Stamp, blob: Bytes, off: nat,
                                      prefix: Text, files: Files, depth: nat)
    requires StoredForest(v, cs, at, parent, st) && Listed(blob, off, cs, st) && AllNames(cs, Fits83)
    ensures ReadFrom(v, blob, off, prefix, files, depth) == Walk(cs, prefix, files, depth)
    decreases cs
  {
    hide StoredForest, StoredNode, Fits83, Size, Own, Entry, ReadSlot, ReadFrom, ReadInto, WalkNode, SlotOf, Listed, Stored;
    hide NodeLaidOut, FatLayout.Links, NodeArea, RawName, ShownAs;
    if cs == [] {
      ListedEnd(v, blob, off, st, prefix, files, depth);
    } else {
      var c, name := cs[0], ShownAs(cs[0].name);
      ForestSplit(v, cs, at, parent, st);
      NodeSplit(v, c, at, parent, st);
      ListedStep(blob, off, cs, st);
      ListedLength(blob, off, cs, st);
      ReadNode(v, c, at, parent, st, name, prefix, files, depth);
      ReadEntry(c, st);
      if RawName(c.name)[0] == 0 {
        ReadStop(v, blob, off, prefix, files, depth);
      } else if Dots(name) {
        SkipOne(v, blob, off, prefix, files, depth);
        ReadForest(v, cs[1..], at + Size(c), parent, st, blob, off + 32, prefix, files, depth);
      } else {
        var got := WalkNode(c, prefix + [SLASH] + name, files, depth);
        ReadStep(v, blob, off, prefix, files, depth, SlotOf(c).(name := name), got);
        if got.Ok? { ReadForest(v, cs[1..], at + Size(c), parent, st, blob, off + 32, prefix, got.value, depth); }
      }
    }
  }

  /** With visible names the walk collects the files of the forest. */
  lemma {:induction false} WalkCollects(cs: seq<Node>, prefix: Text, files: Files, depth: nat)
    requires AllNames(cs, Visible) && AllNames(cs, Fits83) && Depth(cs) <= depth
    ensures Walk(cs, prefix, files, depth) == Ok(Collect(cs, prefix, files))
    decreases cs
  {
    hide Visible, Fits83, RawName, ShownAs;
    if cs != [] {
      VisibleKept(cs[0].name);
      var path := prefix + [SLASH] + cs[0].name;
      if cs[0].Dir? { WalkCollects(cs[0].children, path, files, depth - 1); }
      WalkCollects(cs[1..], prefix, WalkNode(cs[0], path, files, depth).value, depth);
    }
  }

  lemma VisibleKept(n: Text)
    requires Visible(n)
    ensures Fits83(n) && RawName(n)[0] != 0 && !Dots(ShownAs(n)) && ShownAs(n) == n
  {
    CanonicalRaw(n);
    VisibleExact(n);
  }

  lemma ListedEnd(v: View, blob: Bytes, off: nat, st: Stamp, prefix: Text, files: Files, depth: nat)
    requires Listed(blob, off, [], st)
    ensures ReadFrom(v, blob, off, prefix, files, depth) == Ok(files)
  {
  }

  lemma ListedLength(blob: Bytes, off: nat, cs: seq<Node>, st: Stamp)
    requires cs != [] && Listed(blob, off, cs, st)
    ensures off + 32 <= |blob|
  {
  }
}
