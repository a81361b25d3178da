/** Where the image builder puts a tree: clusters, FAT entries and the bytes of every region. */
module FatLayout {
  import opened Words
  import opened LittleEndian
  import opened FatNames
  import opened FatTree

  const SEC: nat := 512
  const RESERVED: nat := 4
  const NFATS: nat := 2
  const ROOT_ENTRIES: nat := 512
  const ROOT_SECS: nat := ROOT_ENTRIES * 32 / SEC
  const ATTR_DIR: u8 := 0x10
  const ATTR_ARCHIVE: u8 := 0x20
  const VOLUME_ID: u32 := 0x53595041

  /** The fixed date and time of every entry. */
  datatype Stamp = Stamp(date: u16, time: u16)

  // ---- clusters ------------------------------------------------------------------------

  function CeilDiv(n: nat): (r: nat)
    ensures n <= r * SEC < n + SEC
  {
    (n + SEC - 1) / SEC
  }

  /** The clusters a node itself needs. */
  function Own(c: Node): nat {
    match c
    case File(_, data, _, _) => CeilDiv(|data|)
    case Dir(_, children, _, _) => var n := CeilDiv(32 * (2 + |children|)); if n < 1 then 1 else n
  }

  /** The clusters of a forest. */
  function Total(cs: seq<Node>): nat {
    if cs == [] then 0
    else Own(cs[0]) + (if cs[0].Dir? then Total(cs[0].children) else 0) + Total(cs[1..])
  }

  function Size(c: Node): nat { Own(c) + if c.Dir? then Total(c.children) else 0 }

  /** The forest with its clusters assigned in preorder from cluster at on. */
  function Assigned(cs: seq<Node>, at: nat): (r: seq<Node>)
    ensures |r| == |cs|
  {
    if cs == [] then []
    else
      var c, n := cs[0], Own(cs[0]);
      var first := if n == 0 then 0 else at;
      (match c
       case File(name, data, _, _) => [File(name, data, first, n)]
       case Dir(name, children, _, _) => [Dir(name, Assigned(children, at + n), first, n)]) +
      Assigned(cs[1..], at + Size(c))
  }

  /** The clusters of the forest are consecutive, in preorder, from at on. */
  predicate LaidOut(cs: seq<Node>, at: nat) {
    cs == [] ||
    (cs[0].nclusters == Own(cs[0]) && cs[0].cluster == (if Own(cs[0]) == 0 then 0 else at) &&
     (cs[0].Dir? ==> LaidOut(cs[0].children, at + Own(cs[0]))) &&
     LaidOut(cs[1..], at + Size(cs[0])))
  }

  /** Equal but for clusters. */
  predicate SameTree(a: seq<Node>, b: seq<Node>) {
    |a| == |b| && forall i :: 0 <= i < |a| ==> SameNode(a[i], b[i])
  }

  predicate SameNode(c: Node, d: Node) {
    match c
    case File(name, data, _, _) => d.File? && d.name == name && d.data == data
    case Dir(name, children, _, _) =>
      d.Dir? && d.name == name && |children| == |d.children| &&
      forall i :: 0 <= i < |children| ==> SameNode(children[i], d.children[i])
  }

  lemma {:induction false} AssignedSame(cs: seq<Node>, at: nat)
    ensures SameTree(Assigned(cs, at), cs)
  {
    if cs != [] {
      var c, r := cs[0], Assigned(cs, at);
      if c.Dir? { AssignedSame(c.children, at + Own(c)); }
      AssignedSame(cs[1..], at + Size(c));
      assert SameNode(r[0], c);
      assert r[1..] == Assigned(cs[1..], at + Size(c));
      forall i | 0 < i < |cs| ensures SameNode(r[i], cs[i]) {
        assert r[i] == r[1..][i - 1] && cs[i] == cs[1..][i - 1];
      }
    }
  }

  lemma {:induction false} SameTotal(a: seq<Node>, b: seq<Node>)
    requires SameTree(a, b)
    ensures Total(a) == Total(b)
  {
    if a != [] {
      assert SameNode(a[0], b[0]);
      if a[0].Dir? { SameTotal(a[0].children, b[0].children); }
      assert forall i :: 0 <= i < |a[1..]| ==> a[1..][i] == a[i + 1] && b[1..][i] == b[i + 1];
      SameTotal(a[1..], b[1..]);
    }
  }

  /** One node with its clusters. */
  function Placed(c: Node, at: nat): Node {
    var n := Own(c);
    var first := if n == 0 then 0 else at;
    match c
    case File(name, data, _, _) => File(name, data, first, n)
    case Dir(name, children, _, _) => Dir(name, Assigned(children, at + n), first, n)
  }

  lemma AssignedStep(cs: seq<Node>, i: nat, at: nat)
    requires i < |cs|
    ensures Assigned(cs[i..], at) == [Placed(cs[i], at)] + Assigned(cs[i + 1..], at + Size(cs[i]))
    ensures Total(cs[i..]) == Size(cs[i]) + Total(cs[i + 1..])
  {
    assert cs[i..][1..] == cs[i + 1..];
  }

  lemma AssignedHead(cs: seq<Node>, at: nat)
    requires cs != []
    ensures var c, d := cs[0], Assigned(cs, at)[0];
      d.Dir? == c.Dir? && d.nclusters == Own(c) == Own(d) && Size(d) == Size(c) &&
      d.cluster == (if Own(c) == 0 then 0 else at) &&
      (c.Dir? ==> d.children == Assigned(c.children, at + Own(c))) &&
      Assigned(cs, at)[1..] == Assigned(cs[1..], at + Size(c))
  {
    var c, d := cs[0], Assigned(cs, at)[0];
    if c.Dir? {
      AssignedSame(c.children, at + Own(c));
      SameTotal(d.children, c.children);
    }
  }

  lemma {:induction false} AssignedLaidOut(cs: seq<Node>, at: nat)
    ensures LaidOut(Assigned(cs, at), at)
  {
    if cs != [] {
      AssignedHead(cs, at);
      if cs[0].Dir? { AssignedLaidOut(cs[0].children, at + Own(cs[0])); }
      AssignedLaidOut(cs[1..], at + Size(cs[0]));
    }
  }

  lemma {:induction false} SameLookup(a: seq<Node>, b: seq<Node>, p: Path)
    requires SameTree(a, b)
    ensures Lookup(a, p) == Lookup(b, p)
    decreases |p|
  {
    if p != [] {
      var k := IndexOf(a, p[0]);
      assert forall i :: 0 <= i < |a| ==> SameNode(a[i], b[i]);
      SameIndex(a, b, p[0]);
      if k < |a| { assert SameNode(a[k], b[k]); }
      if k < |a| && a[k].Dir? { SameLookup(a[k].children, b[k].children, p[1..]); }
    }
  }

  lemma SameIndex(a: seq<Node>, b: seq<Node>, name: Text)
    requires |a| == |b| && forall i :: 0 <= i < |a| ==> a[i].name == b[i].name
    ensures IndexOf(a, name) == IndexOf(b, name)
  {
    var i, j := IndexOf(a, name), IndexOf(b, name);
    if i < |a| { assert b[i].name == name; }
    if j < |a| { assert a[j].name == name; }
  }

  /** A property of names holds throughout the tree. */
  predicate AllNames(cs: seq<Node>, p: Text -> bool) {
    forall i :: 0 <= i < |cs| ==> p(cs[i].name) && (cs[i].Dir? ==> AllNames(cs[i].children, p))
  }

  lemma {:induction false} SameNames(a: seq<Node>, b: seq<Node>, p: Text -> bool)
    requires SameTree(a, b)
    ensures AllNames(a, p) == AllNames(b, p)
  {
    forall i | 0 <= i < |a| && SameNode(a[i], b[i]) && a[i].Dir?
      ensures AllNames(a[i].children, p) == AllNames(b[i].children, p)
    {
      SameNames(a[i].children, b[i].children, p);
    }
  }

  lemma {:induction false} SameDistinct(a: seq<Node>, b: seq<Node>)
    requires SameTree(a, b) && Distinct(b)
    ensures Distinct(a)
  {
    forall i | 0 <= i < |a| && SameNode(a[i], b[i]) && a[i].Dir? ensures Distinct(a[i].children) {
      SameDistinct(a[i].children, b[i].children);
    }
  }

  // ---- the file allocation table ---------------------------------------------------------

  /** The n links of a chain that starts at first. */
  function Chain(first: nat, n: nat): (r: seq<nat>)
    ensures |r| == n
  {
    seq(n, i requires 0 <= i < n => if i + 1 < n then first + i + 1 else 0xFFFF)
  }

  /** The links of a forest, one for each of its clusters. */
  function FatArea(cs: seq<Node>): (r: seq<nat>)
    ensures |r| == Total(cs)
  {
    if cs == [] then []
    else
      Chain(cs[0].cluster, Own(cs[0])) + (if cs[0].Dir? then FatArea(cs[0].children) else []) + FatArea(cs[1..])
  }

  /** The links of one node and what lies below it. */
  function Links(c: Node): (r: seq<nat>)
    ensures |r| == Size(c)
  {
    Chain(c.cluster, Own(c)) + if c.Dir? then FatArea(c.children) else []
  }

  predicate NodeLaidOut(c: Node, at: nat) {
    c.nclusters == Own(c) && c.cluster == (if Own(c) == 0 then 0 else at) &&
    (c.Dir? ==> LaidOut(c.children, at + Own(c)))
  }

  lemma LinksStep(cs: seq<Node>, i: nat, at: nat)
    requires i < |cs| && LaidOut(cs[i..], at)
    ensures FatArea(cs[i..]) == Links(cs[i]) + FatArea(cs[i + 1..])
    ensures Total(cs[i..]) == Size(cs[i]) + Total(cs[i + 1..])
    ensures NodeLaidOut(cs[i], at) && LaidOut(cs[i + 1..], at + Size(cs[i]))
  {
    assert cs[i..][1..] == cs[i + 1..];
  }

  /** The whole table of a volume with the given number of clusters. */
  function FatOf(cs: seq<Node>, clusters: nat): (r: seq<nat>)
    requires Total(cs) <= clusters
    ensures |r| == clusters + 2
  {
    [0xFFF8, 0xFFFF] + FatArea(cs) + seq(clusters - Total(cs), _ => 0)
  }

  /** The bytes of a 16-bit field. */
  function Low(v: nat): u8 { v % 256 }

  function High(v: nat): u8 { v / 256 % 256 }

  /** 16-bit little-endian words. */
  function Pack(ws: seq<nat>): (r: Bytes)
    ensures |r| == 2 * |ws|
  {
    seq(2 * |ws|, k requires 0 <= k < 2 * |ws| => if k % 2 == 0 then Low(ws[k / 2]) else High(ws[k / 2]))
  }

  // ---- directory entries ---------------------------------------------------------------------

  function Zeros(n: nat): (r: Bytes)
    ensures |r| == n
  {
    seq(n, _ => 0)
  }

  /** A directory entry: name, attributes, two unused bytes, times and dates, cluster and size. */
  function Dirent(raw: Bytes, attr: u8, cluster: u16, size: u32, st: Stamp): (r: Bytes)
    requires |raw| == 11
    ensures |r| == 32
  {
    seq(32, i requires 0 <= i < 32 => DirentByte(raw, attr, cluster, size, st, i))
  }

  function DirentByte(raw: Bytes, attr: u8, cluster: u16, size: u32, st: Stamp, i: nat): u8
    requires |raw| == 11 && i < 32
  {
    if i < 11 then raw[i]
    else if i == 11 then attr
    else if i < 14 then 0
    else if i < 26 then Stamped(st, i)
    else if i < 28 then (if i == 26 then Low(cluster) else High(cluster))
    else if i < 30 then (if i == 28 then Low(size) else High(size))
    else (if i == 30 then Low(size / 0x1_0000) else High(size / 0x1_0000))
  }

  /** Creation time and date, access date, high cluster word, modification time and date. */
  function Stamped(st: Stamp, i: nat): u8
    requires 14 <= i < 26
  {
    var word := if i < 16 || 22 <= i < 24 then st.time else if 20 <= i < 22 then 0 else st.date;
    if i % 2 == 0 then Low(word) else High(word)
  }

  const DOT_NAME: Bytes := [DOT, SPACE, SPACE, SPACE, SPACE, SPACE, SPACE, SPACE, SPACE, SPACE, SPACE]
  const DOTDOT_NAME: Bytes := [DOT, DOT, SPACE, SPACE, SPACE, SPACE, SPACE, SPACE, SPACE, SPACE, SPACE]

  /** The packed name, where the name can be packed. */
  function RawName(name: Text): (r: Bytes)
    ensures |r| == 11
  {
    var raw := Name83(name);
    if raw.Some? then raw.value else Zeros(11)
  }

  function Entry(c: Node, st: Stamp): (r: Bytes)
    ensures |r| == 32
  {
    match c
    case File(name, data, cluster, _) => Dirent(RawName(name), ATTR_ARCHIVE, cluster % 0x1_0000, |data| % TWO32, st)
    case Dir(name, _, cluster, _) => Dirent(RawName(name), ATTR_DIR, cluster % 0x1_0000, 0, st)
  }

  function Entries(cs: seq<Node>, st: Stamp): (r: Bytes)
    ensures |r| == 32 * |cs|
  {
    if cs == [] then [] else Entry(cs[0], st) + Entries(cs[1..], st)
  }

  /** The contents of a node: its data, or its own and its parent's entry and those of its children. */
  function Blob(c: Node, parent: nat, st: Stamp): (r: Bytes)
    ensures |r| <= Own(c) * SEC
  {
    match c
    case File(_, data, _, _) => data
    case Dir(_, children, cluster, _) =>
      Dirent(DOT_NAME, ATTR_DIR, cluster % 0x1_0000, 0, st) + Dirent(DOTDOT_NAME, ATTR_DIR, parent % 0x1_0000, 0, st) +
      Entries(children, st)
  }

  function Padded(b: Bytes, n: nat): (r: Bytes)
    requires |b| <= n
    ensures |r| == n
  {
    b + Zeros(n - |b|)
  }

  /** The bytes of the clusters of a forest. */
  function Area(cs: seq<Node>, parent: nat, st: Stamp): (r: Bytes)
    ensures |r| == Total(cs) * SEC
  {
    if cs == [] then []
    else
      Padded(Blob(cs[0], parent, st), Own(cs[0]) * SEC) +
      (if cs[0].Dir? then Area(cs[0].children, cs[0].cluster, st) else []) + Area(cs[1..], parent, st)
  }

  /** The bytes of one node and what lies below it. */
  function NodeArea(c: Node, parent: nat, st: Stamp): (r: Bytes)
    ensures |r| == Size(c) * SEC
  {
    Padded(Blob(c, parent, st), Own(c) * SEC) + if c.Dir? then Area(c.children, c.cluster, st) else []
  }

  lemma AreaStep(cs: seq<Node>, i: nat, parent: nat, st: Stamp)
    requires i < |cs|
    ensures Area(cs[i..], parent, st) == NodeArea(cs[i], parent, st) + Area(cs[i + 1..], parent, st)
  {
    assert cs[i..][1..] == cs[i + 1..];
  }

  // ---- the volume ---------------------------------------------------------------------------------

  datatype Geometry = Geometry(total: nat, fatSecs: nat, clusters: nat)

  function DataStart(fatSecs: nat): nat { RESERVED + NFATS * fatSecs + ROOT_SECS }

  /** The regions fill the volume, and the FAT has an entry for every cluster. */
  predicate Sound(g: Geometry) {
    g.total == DataStart(g.fatSecs) + g.clusters && 4085 <= g.clusters < 65525 &&
    (g.clusters + 2) * 2 <= g.fatSecs * SEC && g.fatSecs < 0x1_0000 && g.total < TWO32
  }

  function FatOff(g: Geometry, n: nat): nat { (RESERVED + n * g.fatSecs) * SEC }

  function RootOff(g: Geometry): nat { (RESERVED + NFATS * g.fatSecs) * SEC }

  function ClusterOff(g: Geometry, c: nat): nat
    requires c >= 2
  {
    (DataStart(g.fatSecs) + (c - 2)) * SEC
  }

  const OEM_NAME: Bytes := ['S' as int, 'Y' as int, 'P' as int, 'A' as int, 'S' as int, '1' as int, '.' as int, '0' as int]
  const LABEL: Bytes :=
    ['S' as int, 'Y' as int, 'P' as int, 'A' as int, 'S' as int, ' ' as int,
     'E' as int, 'F' as int, 'I' as int, ' ' as int, ' ' as int]
  const FS_TYPE: Bytes := ['F' as int, 'A' as int, 'T' as int, '1' as int, '6' as int, ' ' as int, ' ' as int, ' ' as int]

  /** Sector, cluster, reserved area, FATs and root directory (bytes 11 to 18). */
  function BpbLayout(): (r: Bytes)
    ensures |r| == 8
  {
    Put16(SEC) + [1] + Put16(RESERVED) + [NFATS] + Put16(ROOT_ENTRIES)
  }

  /** 16-bit size, media, FAT size and drive geometry (bytes 19 to 27). */
  function BpbSizes(g: Geometry): (r: Bytes)
    requires Sound(g)
    ensures |r| == 9
  {
    Put16(if g.total < 0x1_0000 then g.total else 0) + [0xF8] + Put16(g.fatSecs) + Put16(63) + Put16(255)
  }

  /** Hidden sectors and 32-bit size (bytes 28 to 35). */
  function BpbTotal(g: Geometry): (r: Bytes)
    requires Sound(g)
    ensures |r| == 8
  {
    Put32(0) + Put32(if g.total >= 0x1_0000 then g.total else 0)
  }

  /** Drive, signature, volume id, label and type (bytes 36 to 61). */
  function BpbLabels(): (r: Bytes)
    ensures |r| == 26
  {
    [0x80, 0, 0x29] + Put32(VOLUME_ID) + LABEL + FS_TYPE
  }

  /** The 62 bytes of the BIOS parameter block. */
  function Bpb(g: Geometry): (r: Bytes)
    requires Sound(g)
    ensures |r| == 62
  {
    [0xEB, 0x3C, 0x90] + OEM_NAME + BpbLayout() + BpbSizes(g) + BpbTotal(g) + BpbLabels()
  }

  function BootSector(g: Geometry): (r: Bytes)
    requires Sound(g)
    ensures |r| == SEC
  {
    Padded(Bpb(g), 510) + [0x55, 0xAA]
  }

  /** The region [lo, hi) of the image holds w and zeros behind it. */
  ghost predicate Filled(img: Bytes, lo: nat, hi: nat, w: Bytes) {
    lo + |w| <= hi <= |img| && img[lo..hi] == Padded(w, hi - lo)
  }

  /** What every byte of the image is: boot sector, two FAT copies, root directory and clusters. */
  ghost predicate Volume(img: Bytes, g: Geometry, cs: seq<Node>, st: Stamp) {
    Sound(g) && |img| == g.total * SEC && Total(cs) <= g.clusters &&
    Filled(img, 0, FatOff(g, 0), BootSector(g)) &&
    Filled(img, FatOff(g, 0), FatOff(g, 1), Pack(FatOf(cs, g.clusters))) &&
    Filled(img, FatOff(g, 1), RootOff(g), Pack(FatOf(cs, g.clusters))) &&
    Filled(img, RootOff(g), ClusterOff(g, 2), Entries(cs, st)) &&
    Filled(img, ClusterOff(g, 2), |img|, Area(cs, 0, st))
  }
}
