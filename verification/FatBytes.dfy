/** A built image byte by byte, in the numbers of the FAT specification. */
module FatBytes {
  import opened Words
  import opened LittleEndian
  import opened Slices
  import opened FatNames
  import opened FatTree
  import opened FatLayout
  import opened FatWriter
  import opened FatReader
  import opened FatRoundTrip
  import opened FatTheorems

  // ---- names -----------------------------------------------------------------------------

  /** ASCII upper case. */
  function Cap(c: nat): nat { if 97 <= c <= 122 then c - 32 else c }

  /** The name is divided at place k: at its last dot, or nowhere if it has none or starts with one. */
  predicate DividedAt(name: Text, k: nat) {
    k <= |name| &&
    if k < |name| then name[k] == 46 && name[0] != 46 && forall i :: k < i < |name| ==> name[i] != 46
    else 46 !in name || name[0] == 46
  }

  /** w is a part of a name in upper case, filled up with blanks. */
  predicate Part(w: Bytes, part: Text) {
    |part| <= |w| && forall j :: 0 <= j < |w| ==> w[j] == if j < |part| then Cap(part[j]) else 32
  }

  /** raw is the name in 8 and 3 bytes. */
  predicate Packed(name: Text, raw: Bytes) {
    |raw| == 11 &&
    exists k :: 0 <= k <= |name| && DividedAt(name, k) && Part(raw[..8], name[..k]) &&
      Part(raw[8..], if k < |name| then name[k + 1..] else [])
  }

  lemma DividedUpper(name: Text)
    ensures var s := Upper(name); DividedAt(name, if HasExtension(s) then LastDot(s) else |name|)
  {
    var s := Upper(name);
    assert forall i :: 0 <= i < |name| ==> (s[i] == 46 <==> name[i] == 46);
    if LastDot(s) == |s| {
      forall i | 0 <= i < |name| ensures name[i] != 46 { assert s[i] in s; }
    }
  }

  lemma PartPadded(part: Text, n: nat)
    requires |part| <= n && Ascii(Upper(part))
    ensures Ascii(PadTo(Upper(part), n)) && Part(PadTo(Upper(part), n), part)
  {
    PadAscii(Upper(part), n);
  }

  lemma UpperSlice(name: Text, i: nat, j: nat)
    requires i <= j <= |name|
    ensures Upper(name)[i..j] == Upper(name[i..j])
  {
  }

  /** What the builder packs is the packed name. */
  lemma NamePacked(name: Text)
    requires Fits83(name)
    ensures Packed(name, RawName(name))
  {
    var s, raw := Upper(name), RawName(name);
    var base, ext, k := BaseOf(s), ExtOf(s), if HasExtension(s) then LastDot(s) else |name|;
    var part := if k < |name| then name[k + 1..] else [];
    DividedUpper(name);
    UpperSlice(name, 0, k);
    if k < |name| { UpperSlice(name, k + 1, |name|); }
    assert s[..k] == s[0..k] && name[..k] == name[0..k] && s[0..|s|] == s;
    assert base == Upper(name[..k]) && ext == Upper(part);
    assert raw[..8] == PadTo(base, 8) && raw[8..] == PadTo(ext, 3);
    hide Upper, BaseOf, ExtOf, LastDot, DividedAt, Part, PadTo, Name83, HasExtension;
    PartPadded(name[..k], 8);
    PartPadded(part, 3);
    assert DividedAt(name, k);
  }

  // ---- entries ---------------------------------------------------------------------------

  /** A 32-byte directory entry at o. */
  predicate EntryBytes(img: Bytes, o: nat, name: Bytes, attr: u8, cluster: nat, size: nat, st: Stamp) {
    o + 32 <= |img| && img[o..o + 11] == name && img[o + 11] == attr && img[o + 12] == 0 && img[o + 13] == 0 &&
    Value(img, o + 14, 2) == st.time && Value(img, o + 16, 2) == st.date && Value(img, o + 18, 2) == st.date &&
    Value(img, o + 20, 2) == 0 && Value(img, o + 22, 2) == st.time && Value(img, o + 24, 2) == st.date &&
    Value(img, o + 26, 2) == cluster && Value(img, o + 28, 4) == size
  }

  /**
   * The entry of a node: its packed name; attribute 0x20 (archive) for a file and 0x10 for a directory, so
   * that none is read-only, hidden, a system file or a volume label; its first cluster; and its size.
   */
  ghost predicate NodeEntry(img: Bytes, o: nat, c: Node, st: Stamp) {
    exists raw :: Packed(c.name, raw) &&
      EntryBytes(img, o, raw, if c.File? then 0x20 else 0x10, c.cluster, if c.File? then |c.data| else 0, st)
  }

  /** The attribute of a node's entry, bit by bit. */
  lemma Attributes(img: Bytes, o: nat, c: Node, st: Stamp)
    requires NodeEntry(img, o, c, st)
    ensures o + 32 <= |img| && img[o + 11] % 2 == 0 && img[o + 11] / 2 % 2 == 0 && img[o + 11] / 4 % 2 == 0
    ensures img[o + 11] / 8 % 2 == 0 && (img[o + 11] / 16 % 2 == 1 <==> c.Dir?) && (img[o + 11] / 32 % 2 == 1 <==> c.File?)
  {
  }

  lemma WordBytes(img: Bytes, o: nat, v: u16)
    requires o + 2 <= |img| && img[o] == Low(v) && img[o + 1] == High(v)
    ensures Value(img, o, 2) == v
  {
    FieldValues(img, o);
    HalvesJoin(v);
    hide Low, High, Value;
  }

  lemma SizeBytes(img: Bytes, o: nat, v: u32)
    requires o + 4 <= |img| && img[o] == Low(v) && img[o + 1] == High(v)
    requires img[o + 2] == Low(v / 0x1_0000) && img[o + 3] == High(v / 0x1_0000)
    ensures Value(img, o, 4) == v
  {
    FieldValues(img, o);
    HalvesJoin(v);
    hide Low, High, Value;
  }

  /** The bytes that the builder writes for an entry. */
  lemma DirentAlone(raw: Bytes, attr: u8, cluster: u16, size: u32, st: Stamp)
    requires |raw| == 11
    ensures EntryBytes(Dirent(raw, attr, cluster, size, st), 0, raw, attr, cluster, size, st)
  {
    var d := Dirent(raw, attr, cluster, size, st);
    hide Low, High, Value;
    assert d[0..11] == raw;
    WordBytes(d, 14, st.time);
    WordBytes(d, 16, st.date);
    WordBytes(d, 18, st.date);
    WordBytes(d, 20, 0);
    WordBytes(d, 22, st.time);
    WordBytes(d, 24, st.date);
    WordBytes(d, 26, cluster);
    SizeBytes(d, 28, size);
  }

  lemma {:induction false} SameValue(img: Bytes, o: nat, w: Bytes, i: nat, n: nat)
    requires Holds(img, o, w) && i + n <= |w|
    ensures Value(img, o + i, n) == Value(w, i, n)
    decreases n
  {
    if n > 0 {
      SameValue(img, o, w, i + 1, n - 1);
      assert img[o..o + |w|][i] == w[i];
    }
  }

  lemma DirentPlainly(img: Bytes, o: nat, raw: Bytes, attr: u8, cluster: u16, size: u32, st: Stamp)
    requires |raw| == 11 && Holds(img, o, Dirent(raw, attr, cluster, size, st))
    ensures EntryBytes(img, o, raw, attr, cluster, size, st)
  {
    var d := Dirent(raw, attr, cluster, size, st);
    DirentAlone(raw, attr, cluster, size, st);
    hide Dirent, Value;
    assert img[o + 11] == img[o..o + 32][11] && img[o + 12] == img[o..o + 32][12] && img[o + 13] == img[o..o + 32][13];
    Sub(img, o, d, 0, raw);
    SameValue(img, o, d, 14, 2);
    SameValue(img, o, d, 16, 2);
    SameValue(img, o, d, 18, 2);
    SameValue(img, o, d, 20, 2);
    SameValue(img, o, d, 22, 2);
    SameValue(img, o, d, 24, 2);
    SameValue(img, o, d, 26, 2);
    SameValue(img, o, d, 28, 4);
  }

  lemma EntryPlainly(img: Bytes, o: nat, c: Node, st: Stamp)
    requires Fits83(c.name) && c.cluster < 0x1_0000 && (c.File? ==> |c.data| < TWO32)
    requires Holds(img, o, Entry(c, st))
    ensures NodeEntry(img, o, c, st)
  {
    hide Dirent, Holds, EntryBytes, Packed, RawName, Fits83;
    var raw := RawName(c.name);
    NamePacked(c.name);
    match c
    case File(_, data, cluster, _) => DirentPlainly(img, o, raw, ATTR_ARCHIVE, cluster, |data|, st);
    case Dir(_, _, cluster, _) => DirentPlainly(img, o, raw, ATTR_DIR, cluster, 0, st);
  }

  // ---- places ------------------------------------------------------------------------------

  predicate Zero(img: Bytes, lo: nat, hi: nat) {
    lo <= hi <= |img| && forall k :: lo <= k < hi ==> img[k] == 0
  }

  /** The first byte of cluster c: 4 reserved sectors, two FATs of f sectors, 32 sectors of root directory. */
  function ClusterByte(f: nat, c: nat): nat
    requires c >= 2
  {
    (4 + 2 * f + 32 + (c - 2)) * 512
  }

  /** Word j of the first and of the second FAT. */
  predicate FatWord(img: Bytes, f: nat, j: nat, v: nat) {
    2048 + f * 512 + 2 * j + 2 <= |img| && Value(img, 2048 + 2 * j, 2) == v && Value(img, 2048 + f * 512 + 2 * j, 2) == v
  }

  /** In both FATs cluster j of a chain of n clusters from c on links to the next, or ends the chain. */
  predicate ChainWord(img: Bytes, f: nat, c: nat, n: nat, j: nat) {
    FatWord(img, f, j, if j + 1 < c + n then j + 1 else 0xFFFF)
  }

  predicate ChainBytes(img: Bytes, f: nat, c: nat, n: nat) {
    forall j :: c <= j < c + n ==> ChainWord(img, f, c, n, j)
  }

  /** The contents of a file, and zeros up to the end of its last cluster. */
  predicate FileBytes(img: Bytes, f: nat, data: Bytes, cluster: nat) {
    if data == [] then cluster == 0
    else
      var n := (|data| + 511) / 512;
      cluster >= 2 && Holds(img, ClusterByte(f, cluster), data) &&
      Zero(img, ClusterByte(f, cluster) + |data|, ClusterByte(f, cluster) + n * 512) && ChainBytes(img, f, cluster, n)
  }

  /** The entries of nodes one behind the other. */
  ghost predicate TableBytes(img: Bytes, o: nat, cs: seq<Node>, st: Stamp) {
    forall i :: 0 <= i < |cs| ==> NodeEntry(img, o + 32 * i, cs[i], st)
  }

  /** The dot entries, the entries of the children, and zeros up to the end of the last cluster. */
  ghost predicate DirBytes(img: Bytes, f: nat, cs: seq<Node>, cluster: nat, parent: nat, st: Stamp) {
    var n := (32 * (2 + |cs|) + 511) / 512;
    cluster >= 2 &&
    EntryBytes(img, ClusterByte(f, cluster), [46, 32, 32, 32, 32, 32, 32, 32, 32, 32, 32], 0x10, cluster, 0, st) &&
    EntryBytes(img, ClusterByte(f, cluster) + 32, [46, 46, 32, 32, 32, 32, 32, 32, 32, 32, 32], 0x10, parent, 0, st) &&
    TableBytes(img, ClusterByte(f, cluster) + 64, cs, st) &&
    Zero(img, ClusterByte(f, cluster) + 32 * (2 + |cs|), ClusterByte(f, cluster) + n * 512) && ChainBytes(img, f, cluster, n)
  }

  /** Every node is at its place. */
  ghost predicate TreeBytes(img: Bytes, f: nat, cs: seq<Node>, parent: nat, st: Stamp)
    decreases cs
  {
    forall i :: 0 <= i < |cs| ==> NodeBytes(img, f, cs[i], parent, st)
  }

  ghost predicate NodeBytes(img: Bytes, f: nat, c: Node, parent: nat, st: Stamp)
    decreases c
  {
    match c
    case File(_, data, cluster, _) => FileBytes(img, f, data, cluster)
    case Dir(_, children, cluster, _) =>
      DirBytes(img, f, children, cluster, parent, st) && TreeBytes(img, f, children, cluster, st)
  }

  /** The parameter block of a volume of so many sectors with FATs of f sectors. */
  predicate ParameterBytes(img: Bytes, total: nat, f: nat) {
    |img| >= 512 && img[0] == 0xEB && img[1] == 0x3C && img[2] == 0x90 &&
    img[3..11] == [83, 89, 80, 65, 83, 49, 46, 48] &&
    Value(img, 11, 2) == 512 && img[13] == 1 && Value(img, 14, 2) == 4 && img[16] == 2 && Value(img, 17, 2) == 512 &&
    Value(img, 19, 2) == (if total < 65536 then total else 0) && img[21] == 0xF8 && Value(img, 22, 2) == f &&
    Value(img, 24, 2) == 63 && Value(img, 26, 2) == 255 && Value(img, 28, 4) == 0 &&
    Value(img, 32, 4) == (if total < 65536 then 0 else total) &&
    img[36] == 0x80 && img[37] == 0 && img[38] == 0x29 && Value(img, 39, 4) == 0x5359_5041 &&
    img[43..54] == [83, 89, 80, 65, 83, 32, 69, 70, 73, 32, 32] && img[54..62] == [70, 65, 84, 49, 54, 32, 32, 32] &&
    Zero(img, 62, 510) && img[510] == 0x55 && img[511] == 0xAA
  }

  /**
   * An image of sizeMib MiB: parameter block, empty reserved sectors, two FATs, the root directory and the
   * tree; and zeros everywhere else.
   */
  ghost predicate ImageBytes(img: Bytes, sizeMib: nat, f: nat, cs: seq<Node>, st: Stamp) {
    |img| == sizeMib * 1024 * 1024 && ClusterByte(f, 2) + 4085 * 512 <= |img| && |img| < ClusterByte(f, 2) + 65525 * 512 &&
    ParameterBytes(img, sizeMib * 2048, f) && Zero(img, 512, 2048) &&
    FatWord(img, f, 0, 0xFFF8) && FatWord(img, f, 1, 0xFFFF) &&
    (forall j :: 2 + Total(cs) <= j < 256 * f ==> FatWord(img, f, j, 0)) &&
    TableBytes(img, (4 + 2 * f) * 512, cs, st) && Zero(img, (4 + 2 * f) * 512 + 32 * |cs|, ClusterByte(f, 2)) &&
    TreeBytes(img, f, cs, 0, st) && Zero(img, ClusterByte(f, 2 + Total(cs)), |img|)
  }

  /** The FAT is as large as it would have to be if it took one sector itself. */
  predicate FatSize(sizeMib: nat, f: nat) {
    var n := sizeMib * 2048 - 36;
    1 <= f && n * 2 <= f * 512 && (f > 1 ==> f * 512 < n * 2 + 512)
  }

  // ---- the stored forest -----------------------------------------------------------------------

  /** The view starts where the numbers say, and the second FAT is like the first. */
  ghost predicate PlainView(v: View, img: Bytes, f: nat) {
    v.img == img && v.dataStart == ClusterByte(f, 2) && 2048 + f * 1024 <= |img| &&
    v.fat == img[2048..2048 + f * 512] && v.fat == img[2048 + f * 512..2048 + f * 1024]
  }

  lemma WordInBoth(v: View, img: Bytes, f: nat, j: nat)
    requires PlainView(v, img, f) && 2 * j + 2 <= |v.fat|
    ensures FatWord(img, f, j, U16(v.fat, 2 * j))
  {
    assert v.fat[2 * j] == img[2048..2048 + f * 512][2 * j] && v.fat[2 * j + 1] == img[2048..2048 + f * 512][2 * j + 1];
    var second := img[2048 + f * 512..2048 + f * 1024];
    assert v.fat[2 * j] == second[2 * j] && v.fat[2 * j + 1] == second[2 * j + 1];
    FieldValues(img, 2048 + 2 * j);
    FieldValues(img, 2048 + f * 512 + 2 * j);
  }

  lemma StoredPlainly(v: View, img: Bytes, f: nat, at: nat, n: nat, area: Bytes)
    requires PlainView(v, img, f) && Stored(v, at, Chain(at, n), area)
    ensures at >= 2 && ChainBytes(img, f, at, n) && Holds(img, ClusterByte(f, at), area)
  {
    forall j | at <= j < at + n ensures ChainWord(img, f, at, n, j) {
      assert U16(v.fat, (at + (j - at)) * 2) == Chain(at, n)[j - at];
      WordInBoth(v, img, f, j);
    }
    assert ClusterAt(v, at) == ClusterByte(f, at);
  }

  lemma PaddedPlainly(img: Bytes, o: nat, b: Bytes, n: nat)
    requires |b| <= n && Holds(img, o, Padded(b, n))
    ensures Holds(img, o, b) && Zero(img, o + |b|, o + n)
  {
    var p := Padded(b, n);
    assert img[o..o + |b|] == img[o..o + n][..|b|] == b;
    forall k | o + |b| <= k < o + n ensures img[k] == 0 { assert img[k] == img[o..o + n][k - o] == p[k - o]; }
  }

  lemma FilePlainly(v: View, img: Bytes, f: nat, c: Node, at: nat, parent: nat, st: Stamp)
    requires PlainView(v, img, f) && c.File? && StoredNode(v, c, at, parent, st)
    ensures FileBytes(img, f, c.data, c.cluster) && c.cluster < 0x1_0000 && |c.data| < TWO32
  {
    ReadFile(v, c, at, parent, st);
    hide Stored, PlainView, Padded;
    if c.data != [] {
      StoredPlainly(v, img, f, at, Own(c), Padded(c.data, Own(c) * SEC));
      PaddedPlainly(img, ClusterByte(f, at), c.data, Own(c) * SEC);
      assert Own(c) == (|c.data| + 511) / 512;
    }
  }

  lemma Sub(img: Bytes, o: nat, w: Bytes, i: nat, x: Bytes)
    requires Holds(img, o, w) && i + |x| <= |w| && w[i..i + |x|] == x
    ensures Holds(img, o + i, x)
  {
    SubSlice(img, o, o + |w|, i, i + |x|);
  }

  lemma {:induction false} EntryAmong(cs: seq<Node>, st: Stamp, i: nat)
    requires i < |cs|
    ensures Entries(cs, st)[32 * i..32 * i + 32] == Entry(cs[i], st)
  {
    hide Entry;
    if i > 0 {
      EntryAmong(cs[1..], st, i - 1);
      var e, rest := Entry(cs[0], st), Entries(cs[1..], st);
      assert (e + rest)[32 * i..32 * i + 32] == rest[32 * (i - 1)..32 * (i - 1) + 32];
    } else {
      var e, rest := Entry(cs[0], st), Entries(cs[1..], st);
      assert (e + rest)[0..32] == e;
    }
  }

  /** Clusters and sizes that an entry can hold. */
  ghost predicate Small(cs: seq<Node>) {
    forall i :: 0 <= i < |cs| ==> cs[i].cluster < 0x1_0000 && (cs[i].File? ==> |cs[i].data| < TWO32)
  }

  lemma TablePlainly(img: Bytes, o: nat, cs: seq<Node>, st: Stamp)
    requires Holds(img, o, Entries(cs, st)) && AllNames(cs, Fits83) && Small(cs)
    ensures TableBytes(img, o, cs, st)
  {
    hide Entry, Holds, NodeEntry, Fits83, Entries;
    forall i | 0 <= i < |cs| ensures NodeEntry(img, o + 32 * i, cs[i], st) {
      EntryAmong(cs, st, i);
      Sub(img, o, Entries(cs, st), 32 * i, Entry(cs[i], st));
      EntryPlainly(img, o + 32 * i, cs[i], st);
    }
  }

  const SELF: Bytes := [46, 32, 32, 32, 32, 32, 32, 32, 32, 32, 32]
  const PARENT: Bytes := [46, 46, 32, 32, 32, 32, 32, 32, 32, 32, 32]

  lemma DotNames()
    ensures DOT_NAME == SELF && DOTDOT_NAME == PARENT && ATTR_DIR == 0x10
  {
  }

  lemma BlobFront(c: Node, parent: u16, st: Stamp, self: Bytes, dots: Bytes, attr: u8)
    requires c.Dir? && c.cluster < 0x1_0000 && self == DOT_NAME && dots == DOTDOT_NAME && attr == ATTR_DIR
    ensures Holds(Blob(c, parent, st), 0, Dirent(self, attr, c.cluster, 0, st))
    ensures Holds(Blob(c, parent, st), 32, Dirent(dots, attr, parent, 0, st))
  {
    hide Blob, Dirent, Entries, Padded;
    BlobParts(c, parent, st);
    assert c.cluster % 0x1_0000 == c.cluster && parent % 0x1_0000 == parent;
  }

  lemma SubEntry(img: Bytes, o: nat, w: Bytes, i: nat, raw: Bytes, attr: u8, cluster: u16, st: Stamp)
    requires |raw| == 11 && Holds(img, o, w) && Holds(w, i, Dirent(raw, attr, cluster, 0, st))
    ensures EntryBytes(img, o + i, raw, attr, cluster, 0, st)
  {
    hide Dirent, EntryBytes;
    Sub(img, o, w, i, Dirent(raw, attr, cluster, 0, st));
    DirentPlainly(img, o + i, raw, attr, cluster, 0, st);
  }

  /** The two entries in front of a subdirectory. */
  lemma BlobDots(img: Bytes, o: nat, c: Node, parent: u16, st: Stamp, self: Bytes, dots: Bytes, attr: u8)
    requires c.Dir? && c.cluster < 0x1_0000 && Holds(img, o, Blob(c, parent, st))
    requires self == DOT_NAME && dots == DOTDOT_NAME && attr == ATTR_DIR
    ensures EntryBytes(img, o, self, attr, c.cluster, 0, st) && EntryBytes(img, o + 32, dots, attr, parent, 0, st)
  {
    BlobFront(c, parent, st, self, dots, attr);
    hide Blob, Dirent, Holds, EntryBytes;
    SubEntry(img, o, Blob(c, parent, st), 0, self, attr, c.cluster, st);
    SubEntry(img, o, Blob(c, parent, st), 32, dots, attr, parent, st);
  }

  lemma BlobTable(img: Bytes, o: nat, c: Node, parent: u16, st: Stamp)
    requires c.Dir? && Holds(img, o, Blob(c, parent, st)) && AllNames(c.children, Fits83) && Small(c.children)
    ensures TableBytes(img, o + 64, c.children, st)
  {
    var full, es := Blob(c, parent, st), Entries(c.children, st);
    BlobParts(c, parent, st);
    hide Blob, Holds, Dirent, Entries, TableBytes, AllNames, Small;
    assert full[64..64 + |es|] == full[64..];
    Sub(img, o, full, 64, es);
    TablePlainly(img, o + 64, c.children, st);
  }

  lemma DirClusters(c: Node, parent: nat, st: Stamp)
    requires c.Dir?
    ensures |Blob(c, parent, st)| == 32 * (2 + |c.children|) && Own(c) == (32 * (2 + |c.children|) + 511) / 512
  {
    BlobParts(c, parent, st);
  }

  lemma DirPlainly(v: View, img: Bytes, f: nat, c: Node, at: nat, parent: u16, st: Stamp)
    requires PlainView(v, img, f) && c.Dir? && StoredNode(v, c, at, parent, st)
    requires AllNames(c.children, Fits83) && Small(c.children)
    ensures DirBytes(img, f, c.children, c.cluster, parent, st) && c.cluster < 0x1_0000
  {
    hide Stored, PlainView, Padded, Blob, Own, Holds, EntryBytes, TableBytes, AllNames, ChainBytes, Small, ClusterByte;
    var full, n := Blob(c, parent, st), Own(c) * SEC;
    DirClusters(c, parent, st);
    StoredPlainly(v, img, f, at, Own(c), Padded(full, n));
    DirAt(img, f, c, at, parent, st);
  }

  lemma DirAt(img: Bytes, f: nat, c: Node, at: nat, parent: u16, st: Stamp)
    requires c.Dir? && c.cluster == at >= 2 && at < 0x1_0000 && AllNames(c.children, Fits83) && Small(c.children)
    requires Holds(img, ClusterByte(f, at), Padded(Blob(c, parent, st), Own(c) * SEC)) && ChainBytes(img, f, at, Own(c))
    ensures DirBytes(img, f, c.children, at, parent, st)
  {
    hide Padded, Blob, Own, Holds, EntryBytes, TableBytes, AllNames, ChainBytes, Small, ClusterByte;
    var o := ClusterByte(f, at);
    DirClusters(c, parent, st);
    PaddedPlainly(img, o, Blob(c, parent, st), Own(c) * SEC);
    DotNames();
    BlobDots(img, o, c, parent, st, SELF, PARENT, 0x10);
    BlobTable(img, o, c, parent, st);
  }

  /** All nodes of a stored forest are at their places. */
  lemma {:induction false} TreePlainly(v: View, img: Bytes, f: nat, cs: seq<Node>, at: nat, parent: u16, st: Stamp)
    requires PlainView(v, img, f) && StoredForest(v, cs, at, parent, st) && AllNames(cs, Fits83)
    ensures TreeBytes(img, f, cs, parent, st) && Small(cs)
    decreases cs
  {
    hide PlainView, StoredForest, StoredNode, Fits83, FileBytes, DirBytes, Stored, Size, Own, NodeLaidOut, FatLayout.Links;
    hide NodeArea, TreeBytes, Small;
    if cs == [] {
      NoTree(img, f, parent, st);
    } else {
      var c := cs[0];
      ForestSplit(v, cs, at, parent, st);
      NodeSplit(v, c, at, parent, st);
      TreePlainly(v, img, f, cs[1..], at + Size(c), parent, st);
      if c.File? {
        FilePlainly(v, img, f, c, at, parent, st);
      } else {
        ReadDir(v, c, at, parent, st);
        TreePlainly(v, img, f, c.children, at + Own(c), c.cluster, st);
        DirPlainly(v, img, f, c, at, parent, st);
      }
      TreeNext(img, f, cs, parent, st);
    }
  }

  lemma NoTree(img: Bytes, f: nat, parent: nat, st: Stamp)
    ensures TreeBytes(img, f, [], parent, st) && Small([])
  {
  }

  lemma TreeNext(img: Bytes, f: nat, cs: seq<Node>, parent: nat, st: Stamp)
    requires cs != [] && NodeBytes(img, f, cs[0], parent, st) && TreeBytes(img, f, cs[1..], parent, st) && Small(cs[1..])
    requires cs[0].cluster < 0x1_0000 && (cs[0].File? ==> |cs[0].data| < TWO32)
    ensures TreeBytes(img, f, cs, parent, st) && Small(cs)
  {
    hide NodeBytes;
    assert forall i :: 0 < i < |cs| ==> cs[i] == cs[1..][i - 1];
  }

  // ---- the boot sector --------------------------------------------------------------------------

  lemma Word16(img: Bytes, o: nat, v: u16)
    requires Holds(img, o, Put16(v))
    ensures o + 2 <= |img| && Value(img, o, 2) == v
  {
    hide Put16, Value;
    HoldsField(img, o, Put16(v));
    FieldValues(img, o);
  }

  lemma Word32(img: Bytes, o: nat, v: u32)
    requires Holds(img, o, Put32(v))
    ensures o + 4 <= |img| && Value(img, o, 4) == v
  {
    hide Put32, Value;
    HoldsField(img, o, Put32(v));
    FieldValues(img, o);
  }

  lemma OneByte(img: Bytes, o: nat, w: Bytes, i: nat)
    requires Holds(img, o, w) && i < |w|
    ensures o + i < |img| && img[o + i] == w[i]
  {
    assert img[o..o + |w|][i] == w[i];
  }

  lemma LayoutPlainly(img: Bytes)
    requires Holds(img, 11, BpbLayout())
    ensures |img| >= 19 && Value(img, 11, 2) == 512 && img[13] == 1 && Value(img, 14, 2) == 4 && img[16] == 2
    ensures Value(img, 17, 2) == 512
  {
    hide Put16, Holds, Value;
    var b := BpbLayout();
    assert b[0..2] == Put16(512) && b[2] == 1 && b[3..5] == Put16(4) && b[5] == 2 && b[6..8] == Put16(512);
    Sub(img, 11, b, 0, Put16(512));
    Sub(img, 11, b, 3, Put16(4));
    Sub(img, 11, b, 6, Put16(512));
    Word16(img, 11, 512);
    Word16(img, 14, 4);
    Word16(img, 17, 512);
    OneByte(img, 11, b, 2);
    OneByte(img, 11, b, 5);
  }

  lemma SizesPlainly(img: Bytes, g: Geometry)
    requires Sound(g) && Holds(img, 19, BpbSizes(g))
    ensures |img| >= 28 && Value(img, 19, 2) == (if g.total < 65536 then g.total else 0) && img[21] == 0xF8
    ensures Value(img, 22, 2) == g.fatSecs && Value(img, 24, 2) == 63 && Value(img, 26, 2) == 255
  {
    hide Put16, Holds, Value;
    var b, small := BpbSizes(g), if g.total < 65536 then g.total else 0;
    assert b[0..2] == Put16(small) && b[2] == 0xF8 && b[3..5] == Put16(g.fatSecs) &&
      b[5..7] == Put16(63) && b[7..9] == Put16(255);
    Sub(img, 19, b, 0, Put16(small));
    Sub(img, 19, b, 3, Put16(g.fatSecs));
    Sub(img, 19, b, 5, Put16(63));
    Sub(img, 19, b, 7, Put16(255));
    Word16(img, 19, small);
    Word16(img, 22, g.fatSecs);
    Word16(img, 24, 63);
    Word16(img, 26, 255);
    OneByte(img, 19, b, 2);
  }

  lemma Pieces(img: Bytes, o: nat, x: Bytes, y: Bytes)
    requires Holds(img, o, x + y)
    ensures Holds(img, o, x) && Holds(img, o + |x|, y)
  {
    hide Holds;
    assert (x + y)[0..0 + |x|] == x && (x + y)[|x|..|x| + |y|] == y;
    Sub(img, o, x + y, 0, x);
    Sub(img, o, x + y, |x|, y);
  }

  lemma TotalPlainly(img: Bytes, g: Geometry)
    requires Sound(g) && Holds(img, 28, BpbTotal(g))
    ensures |img| >= 36 && Value(img, 28, 4) == 0 && Value(img, 32, 4) == (if g.total < 65536 then 0 else g.total)
  {
    hide Put32, Holds, Value;
    var b, large := BpbTotal(g), if g.total < 65536 then 0 else g.total;
    Pieces(img, 28, Put32(0), Put32(large));
    Word32(img, 28, 0);
    Word32(img, 32, large);
  }

  lemma LabelsPlainly(img: Bytes)
    requires Holds(img, 36, BpbLabels())
    ensures |img| >= 62 && img[36] == 0x80 && img[37] == 0 && img[38] == 0x29 && Value(img, 39, 4) == 0x5359_5041
    ensures img[43..54] == [83, 89, 80, 65, 83, 32, 69, 70, 73, 32, 32] && img[54..62] == [70, 65, 84, 49, 54, 32, 32, 32]
  {
    hide Put32, Holds, Value;
    var b, title, kind := BpbLabels(), [83, 89, 80, 65, 83, 32, 69, 70, 73, 32, 32], [70, 65, 84, 49, 54, 32, 32, 32];
    assert b[0] == 0x80 && b[1] == 0 && b[2] == 0x29 && b[3..7] == Put32(0x5359_5041);
    assert b[7..18] == LABEL == title && b[18..26] == FS_TYPE == kind;
    Sub(img, 36, b, 3, Put32(0x5359_5041));
    Word32(img, 39, 0x5359_5041);
    OneByte(img, 36, b, 0);
    OneByte(img, 36, b, 1);
    OneByte(img, 36, b, 2);
    SlicePlainly(img, 36, b, 7, title);
    SlicePlainly(img, 36, b, 18, kind);
  }

  lemma SlicePlainly(img: Bytes, o: nat, w: Bytes, i: nat, x: Bytes)
    requires Holds(img, o, w) && i + |x| <= |w| && w[i..i + |x|] == x
    ensures o + i + |x| <= |img| && img[o + i..o + i + |x|] == x
  {
    Sub(img, o, w, i, x);
  }

  lemma FrontPlainly(img: Bytes, b: Bytes)
    requires Holds(img, 0, b) && |b| >= 11
    requires b[0] == 0xEB && b[1] == 0x3C && b[2] == 0x90 && b[3..11] == [83, 89, 80, 65, 83, 49, 46, 48]
    ensures |img| >= 11 && img[0] == 0xEB && img[1] == 0x3C && img[2] == 0x90
    ensures img[3..11] == [83, 89, 80, 65, 83, 49, 46, 48]
  {
    hide Holds;
    OneByte(img, 0, b, 0);
    OneByte(img, 0, b, 1);
    OneByte(img, 0, b, 2);
    SlicePlainly(img, 0, b, 3, [83, 89, 80, 65, 83, 49, 46, 48]);
  }

  lemma BpbPieces(g: Geometry)
    requires Sound(g)
    ensures var b := Bpb(g);
      b[0] == 0xEB && b[1] == 0x3C && b[2] == 0x90 && b[3..11] == [83, 89, 80, 65, 83, 49, 46, 48] &&
      b[11..19] == BpbLayout() && b[19..28] == BpbSizes(g) && b[28..36] == BpbTotal(g) && b[36..62] == BpbLabels()
  {
    hide BpbLayout, BpbSizes, BpbTotal, BpbLabels;
    var b := Bpb(g);
    assert b[3..11] == OEM_NAME;
  }

  lemma BootPlainly(img: Bytes, g: Geometry)
    requires Sound(g) && Holds(img, 0, BootSector(g))
    ensures ParameterBytes(img, g.total, g.fatSecs)
  {
    hide Holds, Bpb, BpbLayout, BpbSizes, BpbTotal, BpbLabels, Value;
    var b, p := BootSector(g), Bpb(g);
    BpbPieces(g);
    assert b[0..0 + |p|] == p;
    Sub(img, 0, b, 0, p);
    FrontPlainly(img, p);
    Sub(img, 0, p, 11, BpbLayout());
    Sub(img, 0, p, 19, BpbSizes(g));
    Sub(img, 0, p, 28, BpbTotal(g));
    Sub(img, 0, p, 36, BpbLabels());
    LayoutPlainly(img);
    SizesPlainly(img, g);
    TotalPlainly(img, g);
    LabelsPlainly(img);
    OneByte(img, 0, b, 510);
    OneByte(img, 0, b, 511);
    forall k | 62 <= k < 510 ensures img[k] == 0 { OneByte(img, 0, b, k); }
  }

  // ---- the image ---------------------------------------------------------------------------------

  lemma FilledPlainly(img: Bytes, lo: nat, hi: nat, w: Bytes)
    requires Filled(img, lo, hi, w)
    ensures Holds(img, lo, w) && Zero(img, lo + |w|, hi)
  {
    hide Padded;
    assert Holds(img, lo, Padded(w, hi - lo)) by { assert lo + (hi - lo) == hi; }
    PaddedPlainly(img, lo, w, hi - lo);
  }

  lemma ViewPlainly(img: Bytes, g: Geometry, cs: seq<Node>, st: Stamp)
    requires Volume(img, g, cs, st)
    ensures PlainView(ViewOf(img, g), img, g.fatSecs)
  {
    hide Filled, BootSector, Pack, FatOf, Total, Entries, Area;
    Offsets(g);
    VolumeUnique(img, img, g, cs, st);
  }

  /** Word j of the table, in both FATs. */
  lemma TableWord(img: Bytes, g: Geometry, cs: seq<Node>, st: Stamp, j: nat)
    requires Volume(img, g, cs, st) && LaidOut(cs, 2) && 2 * j + 2 <= g.fatSecs * 512
    ensures j == 0 ==> FatWord(img, g.fatSecs, j, 0xFFF8)
    ensures j == 1 ==> FatWord(img, g.fatSecs, j, 0xFFFF)
    ensures j >= 2 + Total(cs) ==> FatWord(img, g.fatSecs, j, 0)
  {
    hide Filled, BootSector, Pack, FatOf, Total, Entries, Area, FatArea, LaidOut, PlainView, FatWord;
    var v := ViewOf(img, g);
    ViewPlainly(img, g, cs, st);
    FatViewSize(img, g);
    WordInBoth(v, img, g.fatSecs, j);
    FatTable(img, g, cs, st, j);
  }

  lemma FatViewSize(img: Bytes, g: Geometry)
    requires Sound(g) && |img| == g.total * SEC
    ensures |ViewOf(img, g).fat| == g.fatSecs * 512
  {
    Offsets(g);
  }

  lemma FatTable(img: Bytes, g: Geometry, cs: seq<Node>, st: Stamp, j: nat)
    requires Volume(img, g, cs, st) && LaidOut(cs, 2) && 2 * j + 2 <= |ViewOf(img, g).fat|
    ensures j == 0 ==> U16(ViewOf(img, g).fat, 2 * j) == 0xFFF8
    ensures j == 1 ==> U16(ViewOf(img, g).fat, 2 * j) == 0xFFFF
    ensures j >= 2 + Total(cs) ==> U16(ViewOf(img, g).fat, 2 * j) == 0
  {
    hide BootSector, Pack, Total, Entries, Area, FatArea, LaidOut, Padded;
    var fat, ws := ViewOf(img, g).fat, FatOf(cs, g.clusters);
    Offsets(g);
    FatStart(img, g, cs, st);
    FilledPlainly(img, FatOff(g, 0), FatOff(g, 1), Pack(ws));
    if j < |ws| {
      if j < 2 || j >= 2 + Total(cs) { PackedWord(ws, fat, j); }
    } else {
      assert fat[2 * j] == img[FatOff(g, 0) + 2 * j] && fat[2 * j + 1] == img[FatOff(g, 0) + 2 * j + 1];
    }
  }

  lemma PlacesPlainly(g: Geometry)
    requires Sound(g)
    ensures FatOff(g, 0) == 2048 && RootOff(g) == (4 + 2 * g.fatSecs) * 512 && ClusterOff(g, 2) == ClusterByte(g.fatSecs, 2)
    ensures forall c: nat :: c >= 2 ==> ClusterOff(g, c) == ClusterByte(g.fatSecs, c)
    ensures g.total * SEC == ClusterByte(g.fatSecs, 2) + g.clusters * 512 && 4085 <= g.clusters < 65525
  {
    Offsets(g);
  }

  lemma RootPlainly(img: Bytes, g: Geometry, cs: seq<Node>, st: Stamp)
    requires Volume(img, g, cs, st) && AllNames(cs, Fits83) && Small(cs)
    ensures TableBytes(img, (4 + 2 * g.fatSecs) * 512, cs, st)
    ensures Zero(img, (4 + 2 * g.fatSecs) * 512 + 32 * |cs|, ClusterByte(g.fatSecs, 2))
  {
    hide Filled, BootSector, Pack, FatOf, Total, Entries, Area, TableBytes, AllNames, Small, ClusterByte;
    PlacesPlainly(g);
    FilledPlainly(img, RootOff(g), ClusterOff(g, 2), Entries(cs, st));
    TablePlainly(img, RootOff(g), cs, st);
  }

  lemma AreaPlainly(img: Bytes, g: Geometry, cs: seq<Node>, st: Stamp)
    requires Volume(img, g, cs, st)
    ensures Zero(img, ClusterByte(g.fatSecs, 2 + Total(cs)), |img|)
  {
    hide Filled, BootSector, Pack, FatOf, Total, Entries, Area;
    PlacesPlainly(g);
    FilledPlainly(img, ClusterOff(g, 2), |img|, Area(cs, 0, st));
  }

  /** The geometry for so many MiB. */
  lemma SizePlainly(sizeMib: nat)
    requires SizeOk(sizeMib)
    ensures var g := GeometryFor(sizeMib);
      g.total == sizeMib * 2048 && g.total * SEC == sizeMib * 1024 * 1024 && FatSize(sizeMib, g.fatSecs)
  {
  }

  /** Every byte of a volume. */
  lemma VolumeBytes(img: Bytes, sizeMib: nat, cs: seq<Node>, st: Stamp)
    requires SizeOk(sizeMib) && Sound(GeometryFor(sizeMib)) && Volume(img, GeometryFor(sizeMib), cs, st)
    requires LaidOut(cs, 2) && AllNames(cs, Fits83)
    ensures FatSize(sizeMib, FatSecs(Sectors(sizeMib))) && ImageBytes(img, sizeMib, FatSecs(Sectors(sizeMib)), cs, st)
  {
    hide Filled, BootSector, Pack, FatOf, Total, Entries, Area, LaidOut, AllNames, Small, TableBytes, TreeBytes, FatWord, Zero;
    hide ParameterBytes, FatSize, StoredForest, PlainView, SizeOk, Clusters, FatSecs, Sectors;
    var g := GeometryFor(sizeMib);
    SizePlainly(sizeMib);
    PlacesPlainly(g);
    FilledPlainly(img, 0, FatOff(g, 0), BootSector(g));
    BootPlainly(img, g);
    ViewPlainly(img, g, cs, st);
    VolumeStored(img, g, cs, st);
    TreePlainly(ViewOf(img, g), img, g.fatSecs, cs, 2, 0, st);
    RootPlainly(img, g, cs, st);
    AreaPlainly(img, g, cs, st);
    TableWord(img, g, cs, st, 0);
    TableWord(img, g, cs, st, 1);
    forall j | 2 + Total(cs) <= j < 256 * g.fatSecs ensures FatWord(img, g.fatSecs, j, 0) { TableWord(img, g, cs, st, j); }
  }

  // ---- paths ---------------------------------------------------------------------------------------

  /** From the table at o on, the entries along path p lead to a file with this contents. */
  ghost predicate PathBytes(img: Bytes, f: nat, o: nat, p: Path, data: Bytes, st: Stamp)
    decreases |p|, 1
  {
    p != [] && exists at: nat, raw, c: nat :: NextBytes(img, f, o, p, data, st, at, raw, c)
  }

  /** The first name of p has its entry at place at of the table, which leads on. */
  ghost predicate NextBytes(img: Bytes, f: nat, o: nat, p: Path, data: Bytes, st: Stamp, at: nat, raw: Bytes, c: nat)
    requires p != []
    decreases |p|, 0
  {
    at >= o && (at - o) % 32 == 0 && Packed(p[0], raw) &&
    if |p| == 1 then EntryBytes(img, at, raw, 0x20, c, |data|, st) && FileBytes(img, f, data, c)
    else c >= 2 && EntryBytes(img, at, raw, 0x10, c, 0, st) && PathBytes(img, f, ClusterByte(f, c) + 64, p[1..], data, st)
  }

  lemma {:induction false} LookupBytes(img: Bytes, f: nat, o: nat, cs: seq<Node>, parent: nat, p: Path, data: Bytes, st: Stamp)
    requires TableBytes(img, o, cs, st) && TreeBytes(img, f, cs, parent, st) && Lookup(cs, p) == Some(data)
    ensures PathBytes(img, f, o, p, data, st)
    decreases |p|
  {
    hide EntryBytes, FileBytes, Packed, TableBytes, TreeBytes, ClusterByte, PathBytes;
    var i := IndexOf(cs, p[0]);
    var raw := EntryRaw(img, o, cs, i, st);
    match cs[i]
    case File(_, d, cluster, _) =>
      FileAtIndex(img, f, cs, parent, i, st);
      PathStep(img, f, o, p, data, st, i, raw, cluster);
    case Dir(_, children, cluster, _) =>
      DirTable(img, f, cs, parent, i, st);
      LookupBytes(img, f, ClusterByte(f, cluster) + 64, children, cluster, p[1..], data, st);
      PathStep(img, f, o, p, data, st, i, raw, cluster);
  }

  lemma FileAtIndex(img: Bytes, f: nat, cs: seq<Node>, parent: nat, i: nat, st: Stamp)
    requires TreeBytes(img, f, cs, parent, st) && i < |cs| && cs[i].File?
    ensures FileBytes(img, f, cs[i].data, cs[i].cluster)
  {
    hide FileBytes;
    assert NodeBytes(img, f, cs[i], parent, st);
  }

  lemma PathStep(img: Bytes, f: nat, o: nat, p: Path, data: Bytes, st: Stamp, i: nat, raw: Bytes, c: nat)
    requires p != [] && Packed(p[0], raw)
    requires EntryBytes(img, o + 32 * i, raw, if |p| == 1 then 0x20 else 0x10, c, if |p| == 1 then |data| else 0, st)
    requires if |p| == 1 then FileBytes(img, f, data, c)
      else c >= 2 && PathBytes(img, f, ClusterByte(f, c) + 64, p[1..], data, st)
    ensures PathBytes(img, f, o, p, data, st)
  {
    hide EntryBytes, FileBytes, Packed, ClusterByte;
    var at: nat := o + 32 * i;
    assert (at - o) % 32 == 0;
    assert NextBytes(img, f, o, p, data, st, at, raw, c);
  }

  lemma EntryRaw(img: Bytes, o: nat, cs: seq<Node>, i: nat, st: Stamp) returns (raw: Bytes)
    requires TableBytes(img, o, cs, st) && i < |cs|
    ensures Packed(cs[i].name, raw)
    ensures EntryBytes(img, o + 32 * i, raw, if cs[i].File? then 0x20 else 0x10, cs[i].cluster,
                       if cs[i].File? then |cs[i].data| else 0, st)
  {
    hide EntryBytes, Packed;
    assert NodeEntry(img, o + 32 * i, cs[i], st);
    raw :| Packed(cs[i].name, raw) &&
      EntryBytes(img, o + 32 * i, raw, if cs[i].File? then 0x20 else 0x10, cs[i].cluster,
                 if cs[i].File? then |cs[i].data| else 0, st);
  }

  lemma DirTable(img: Bytes, f: nat, cs: seq<Node>, parent: nat, i: nat, st: Stamp)
    requires TreeBytes(img, f, cs, parent, st) && i < |cs| && cs[i].Dir?
    ensures cs[i].cluster >= 2 && TableBytes(img, ClusterByte(f, cs[i].cluster) + 64, cs[i].children, st)
    ensures TreeBytes(img, f, cs[i].children, cs[i].cluster, st)
  {
    hide EntryBytes, FileBytes, TableBytes, ClusterByte, Zero, ChainBytes;
    assert NodeBytes(img, f, cs[i], parent, st);
  }

  /**
   * In every image that is built, the bytes are as stated, and for every file of the tree the entries
   * along its path lead to its contents.
   */
  lemma BuiltBytes(img: Bytes, sizeMib: nat, ms: seq<Mapping>, st: Stamp)
    requires Accepted(sizeMib, ms) && Sound(GeometryFor(sizeMib))
    requires Volume(img, GeometryFor(sizeMib), Assigned(TreeOf(ms), 2), st)
    ensures var f := FatSecs(Sectors(sizeMib));
      FatSize(sizeMib, f) && ImageBytes(img, sizeMib, f, Assigned(TreeOf(ms), 2), st) &&
      forall p, data :: Lookup(TreeOf(ms), p) == Some(data) ==> PathBytes(img, f, (4 + 2 * f) * 512, p, data, st)
  {
    hide Volume, TreeOf, Assigned, Fits83, FatSecs, Sectors, SizeOk, GeometryFor, LaidOut, AllNames, SameTree,
      TreeBytes, TableBytes;
    hide Clusters, FatSize, Total, Lookup, PathBytes, Zero, FatWord, ParameterBytes;
    var tree, cs, f := TreeOf(ms), Assigned(TreeOf(ms), 2), FatSecs(Sectors(sizeMib));
    AssignedFacts(tree, 2);
    AssignedSame(tree, 2);
    VolumeBytes(img, sizeMib, cs, st);
    forall p, data | Lookup(tree, p) == Some(data) ensures PathBytes(img, f, (4 + 2 * f) * 512, p, data, st) {
      SameLookup(cs, tree, p);
      LookupBytes(img, f, (4 + 2 * f) * 512, cs, 0, p, data, st);
    }
  }
}
