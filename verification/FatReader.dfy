/** The independent FAT16 reader (tests/media/validate_media.py): boot sector, chains and directories. */
module FatReader {
  import opened Words
  import opened LittleEndian
  import opened FatNames

  datatype Defect =
    | TooShort | NoSignature | SectorSize | ClusterSize | FatCount | NoLabel | ExceedsImage | BadLayout
    | NoStart | LoopingChain | OutsideImage | OutsideFat | ChainTooShort | NotAscii | TooDeep

  datatype Outcome<+T> = Ok(value: T) | Bad(defect: Defect)

  type Files = map<Text, Bytes>

  const SECTOR: nat := 512
  const END_OF_CHAIN: nat := 0xFFF8

  /** What the reader needs of a volume: its bytes, the first FAT and where the regions start. */
  datatype View = View(img: Bytes, fat: Bytes, rootStart: nat, dataStart: nat)

  // ---- the specification -------------------------------------------------------------------

  function OpenVolume(img: Bytes): (r: Outcome<View>)
    ensures r.Ok? ==> r.value.img == img && r.value.rootStart <= r.value.dataStart <= |img|
  {
    if |img| < SECTOR then Bad(TooShort)
    else if img[510] != 0x55 || img[511] != 0xAA then Bad(NoSignature)
    else
      var sectorBytes, reserved, rootEntries, fatSectors := U16(img, 11), U16(img, 14), U16(img, 17), U16(img, 22);
      var total := if U16(img, 19) != 0 then U16(img, 19) else U32(img, 32);
      if sectorBytes != SECTOR then Bad(SectorSize)
      else if img[13] != 1 then Bad(ClusterSize)
      else if img[16] != 2 then Bad(FatCount)
      else if img[54..62] != FAT16_LABEL then Bad(NoLabel)
      else if total * SECTOR > |img| then Bad(ExceedsImage)
      else
        var fatStart, rootStart := reserved * SECTOR, (reserved + 2 * fatSectors) * SECTOR;
        var dataStart, fatEnd := rootStart + rootEntries * 32, fatStart + fatSectors * SECTOR;
        if fatEnd > |img| || dataStart > |img| then Bad(BadLayout)
        else Ok(View(img, img[fatStart..fatEnd], rootStart, dataStart))
  }

  const FAT16_LABEL: Bytes :=
    ['F' as int, 'A' as int, 'T' as int, '1' as int, '6' as int, ' ' as int, ' ' as int, ' ' as int]

  function ClusterAt(v: View, c: nat): nat
    requires c >= 2
  {
    v.dataStart + (c - 2) * SECTOR
  }

  /** A cluster whose bytes and whose FAT entry exist. */
  predicate InVolume(v: View, c: nat) {
    c >= 2 && ClusterAt(v, c) + SECTOR <= |v.img| && c * 2 + 2 <= |v.fat|
  }

  function Next(v: View, c: nat): nat
    requires InVolume(v, c)
  {
    U16(v.fat, c * 2)
  }

  function ClusterBytes(v: View, c: nat): Bytes
    requires InVolume(v, c)
  {
    v.img[ClusterAt(v, c)..ClusterAt(v, c) + SECTOR]
  }

  predicate IsLink(c: nat) { c < END_OF_CHAIN }

  ghost function LinkValues(): set<nat> { set c: nat | c < END_OF_CHAIN && IsLink(c) }

  /** Follows a chain from cluster on; seen are the clusters before it and out their bytes. */
  function Follow(v: View, cluster: nat, seen: set<nat>, out: Bytes): Outcome<Bytes>
    decreases LinkValues() - seen
  {
    if cluster >= END_OF_CHAIN then Ok(out)
    else if cluster < 2 || cluster in seen then Bad(LoopingChain)
    else if ClusterAt(v, cluster) + SECTOR > |v.img| then Bad(OutsideImage)
    else if cluster * 2 + 2 > |v.fat| then Bad(OutsideFat)
    else
      assert cluster in LinkValues() - seen && cluster !in LinkValues() - (seen + {cluster});
      Follow(v, Next(v, cluster), seen + {cluster}, out + ClusterBytes(v, cluster))
  }

  /** The bytes of a chain, cut to the given size if there is one. */
  function ChainBytes(v: View, first: nat, size: Option<nat>): Outcome<Bytes> {
    if size == Some(0) then Ok([])
    else if first < 2 then Bad(NoStart)
    else match Follow(v, first, {}, [])
      case Bad(d) => Bad(d)
      case Ok(out) =>
        if size.None? then Ok(out)
        else if |out| < size.value then Bad(ChainTooShort) else Ok(out[..size.value])
  }

  datatype Slot = Slot(name: Text, isDir: bool, cluster: nat, size: nat)

  /** What the reader makes of a 32-byte entry: nothing to do, a defect, or a file or directory. */
  function ReadSlot(ent: Bytes): Outcome<Option<Slot>>
    requires |ent| == 32
  {
    if ent[0] == 0xE5 || ent[11] == 0x0F then Ok(None)
    else match ShortName(ent[..11])
      case None => Bad(NotAscii)
      case Some(name) =>
        if name == [DOT] || name == [DOT, DOT] then Ok(None)
        else Ok(Some(Slot(name, ent[11] / 16 % 2 == 1, U16(ent, 26), U32(ent, 28))))
  }

  predicate Stops(blob: Bytes, off: nat) { off + 32 > |blob| || blob[off] == 0 }

  /**
   * Reads the entries of a directory from off on and everything below them into files. depth is the
   * number of further directory levels that may be entered.
   */
  function ReadFrom(v: View, blob: Bytes, off: nat, prefix: Text, files: Files, depth: nat): Outcome<Files>
    decreases depth, |blob| - off
  {
    if Stops(blob, off) then Ok(files)
    else match ReadSlot(blob[off..off + 32])
      case Bad(d) => Bad(d)
      case Ok(None) => ReadFrom(v, blob, off + 32, prefix, files, depth)
      case Ok(Some(slot)) =>
        match ReadInto(v, slot, prefix, files, depth)
        case Bad(d) => Bad(d)
        case Ok(fs) => ReadFrom(v, blob, off + 32, prefix, fs, depth)
  }

  /** Adds one file, or all files below one directory. */
  function ReadInto(v: View, slot: Slot, prefix: Text, files: Files, depth: nat): Outcome<Files>
    decreases depth, 0
  {
    var path := prefix + [SLASH] + slot.name;
    match ChainBytes(v, slot.cluster, if slot.isDir then None else Some(slot.size))
    case Bad(d) => Bad(d)
    case Ok(bytes) =>
      if !slot.isDir then Ok(files[path := bytes])
      else if depth == 0 then Bad(TooDeep)
      else ReadFrom(v, bytes, 0, path, files, depth - 1)
  }

  /** All files of an image; limit bounds the nesting of directories. */
  function FilesOf(img: Bytes, limit: nat): Outcome<Files> {
    match OpenVolume(img)
    case Bad(d) => Bad(d)
    case Ok(v) => ReadFrom(v, img[v.rootStart..v.dataStart], 0, [], map[], limit)
  }

  // ---- chains, independently -------------------------------------------------------------------

  /** path is the chain that starts at first: it follows the FAT and ends at an end mark. */
  ghost predicate IsChain(v: View, first: nat, path: seq<nat>)
    decreases |path|
  {
    if path == [] then first >= END_OF_CHAIN
    else first == path[0] < END_OF_CHAIN && InVolume(v, first) && IsChain(v, Next(v, first), path[1..])
  }

  function Contents(v: View, path: seq<nat>): Bytes
    requires forall c <- path :: InVolume(v, c)
  {
    if path == [] then [] else ClusterBytes(v, path[0]) + Contents(v, path[1..])
  }

  lemma {:induction false} ChainInVolume(v: View, first: nat, path: seq<nat>)
    requires IsChain(v, first, path)
    ensures forall c <- path :: InVolume(v, c)
    decreases |path|
  {
    if path != [] {
      ChainInVolume(v, Next(v, first), path[1..]);
    }
  }

  /** There is only one chain from a cluster. */
  lemma {:induction false} ChainUnique(v: View, first: nat, p: seq<nat>, q: seq<nat>)
    requires IsChain(v, first, p) && IsChain(v, first, q)
    ensures p == q
    decreases |p|
  {
    if p != [] && q != [] {
      ChainUnique(v, Next(v, first), p[1..], q[1..]);
      assert p == [p[0]] + p[1..] && q == [q[0]] + q[1..];
    }
  }

  lemma {:induction false} ChainTail(v: View, first: nat, path: seq<nat>, i: nat)
    requires IsChain(v, first, path) && i < |path|
    ensures IsChain(v, path[i], path[i..])
    decreases i
  {
    if i > 0 {
      ChainTail(v, Next(v, first), path[1..], i - 1);
      assert path[1..][i - 1..] == path[i..];
    }
  }

  /** A chain that ends never visits a cluster twice. */
  lemma ChainDistinct(v: View, first: nat, path: seq<nat>, i: nat, j: nat)
    requires IsChain(v, first, path) && i < j < |path|
    ensures path[i] != path[j]
  {
    if path[i] == path[j] {
      ChainTail(v, first, path, i);
      ChainTail(v, first, path, j);
      ChainUnique(v, path[i], path[i..], path[j..]);
      assert false;
    }
  }

  /** Following succeeds along a chain that avoids what has been seen. */
  lemma {:induction false} FollowChain(v: View, first: nat, path: seq<nat>, seen: set<nat>, out: Bytes)
    requires IsChain(v, first, path) && forall c <- path :: c !in seen
    ensures forall c <- path :: InVolume(v, c)
    ensures Follow(v, first, seen, out) == Ok(out + Contents(v, path))
    decreases |path|
  {
    ChainInVolume(v, first, path);
    if path == [] {
      assert out + Contents(v, path) == out;
    } else {
      var rest := path[1..];
      forall c <- rest ensures c !in seen + {first} {
        var j :| 0 <= j < |rest| && rest[j] == c;
        ChainDistinct(v, first, path, 0, j + 1);
      }
      FollowChain(v, Next(v, first), rest, seen + {first}, out + ClusterBytes(v, first));
      assert out + ClusterBytes(v, first) + Contents(v, rest) == out + Contents(v, path);
    }
  }

  /** Following succeeds only along a chain. */
  lemma {:induction false} FollowedChain(v: View, first: nat, seen: set<nat>, out: Bytes) returns (path: seq<nat>)
    requires Follow(v, first, seen, out).Ok?
    ensures IsChain(v, first, path)
    decreases LinkValues() - seen
  {
    if first >= END_OF_CHAIN {
      path := [];
    } else {
      assert first in LinkValues() - seen && first !in LinkValues() - (seen + {first});
      var rest := FollowedChain(v, Next(v, first), seen + {first}, out + ClusterBytes(v, first));
      path := [first] + rest;
    }
  }

  /**
   * The walk with its set of visited clusters accepts exactly the chains that end, and returns the
   * bytes of their clusters in order.
   */
  lemma FollowExact(v: View, first: nat)
    ensures Follow(v, first, {}, []).Ok? <==> exists path: seq<nat> :: IsChain(v, first, path)
    ensures forall path: seq<nat> :: IsChain(v, first, path) ==>
      (forall c <- path :: InVolume(v, c)) && Follow(v, first, {}, []) == Ok(Contents(v, path))
  {
    if Follow(v, first, {}, []).Ok? {
      var path := FollowedChain(v, first, {}, []);
      assert IsChain(v, first, path);
    }
    if path: seq<nat> :| IsChain(v, first, path) {
      FollowChain(v, first, path, {}, []);
    }
    assert Follow(v, first, {}, []).Ok? <==> exists path: seq<nat> :: IsChain(v, first, path);
    forall path: seq<nat> | IsChain(v, first, path)
      ensures (forall c <- path :: InVolume(v, c)) && Follow(v, first, {}, []) == Ok(Contents(v, path))
    {
      FollowChain(v, first, path, {}, []);
      assert [] + Contents(v, path) == Contents(v, path);
    }
  }

  // ---- the code ----------------------------------------------------------------------------------

  method ReadChain(v: View, first: nat, size: Option<nat>) returns (r: Outcome<Bytes>)
    ensures r == ChainBytes(v, first, size)
  {
    if size == Some(0) { return Ok([]); }
    if first < 2 { return Bad(NoStart); }
    var out: Bytes, cluster: nat, seen: set<nat> := [], first, {};
    while cluster < END_OF_CHAIN
      invariant Follow(v, first, {}, []) == Follow(v, cluster, seen, out)
      decreases LinkValues() - seen
    {
      if cluster < 2 || cluster in seen { return Bad(LoopingChain); }
      assert cluster in LinkValues() - seen && cluster !in LinkValues() - (seen + {cluster});
      seen := seen + {cluster};
      if ClusterAt(v, cluster) + SECTOR > |v.img| { return Bad(OutsideImage); }
      if cluster * 2 + 2 > |v.fat| { return Bad(OutsideFat); }
      out := out + v.img[ClusterAt(v, cluster)..ClusterAt(v, cluster) + SECTOR];
      cluster := U16(v.fat, cluster * 2);
    }
    if size.None? { return Ok(out); }
    r := if |out| < size.value then Bad(ChainTooShort) else Ok(out[..size.value]);
  }

  /** The walk over all directories, filling one dictionary. */
  class Walker {
    var files: Files

    constructor ()
      ensures files == map[]
    {
      files := map[];
    }

    method ReadEntries(v: View, blob: Bytes, prefix: Text, depth: nat) returns (defect: Option<Defect>)
      modifies this
      ensures ReadFrom(v, blob, 0, prefix, old(files), depth) == if defect.Some? then Bad(defect.value) else Ok(files)
      decreases depth
    {
      var off := 0;
      while off + 32 <= |blob| && blob[off] != 0
        invariant ReadFrom(v, blob, 0, prefix, old(files), depth) == ReadFrom(v, blob, off, prefix, files, depth)
        decreases |blob| - off
      {
        var slot := ReadSlot(blob[off..off + 32]);
        if slot.Bad? { return Some(slot.defect); }
        if slot.value.Some? {
          defect := this.ReadOne(v, slot.value.value, prefix, depth);
          if defect.Some? { return; }
        }
        off := off + 32;
      }
      defect := None;
    }

    method ReadOne(v: View, slot: Slot, prefix: Text, depth: nat) returns (defect: Option<Defect>)
      modifies this
      ensures ReadInto(v, slot, prefix, old(files), depth) == if defect.Some? then Bad(defect.value) else Ok(files)
      decreases depth, 0
    {
      var path := prefix + [SLASH] + slot.name;
      var bytes := ReadChain(v, slot.cluster, if slot.isDir then None else Some(slot.size));
      if bytes.Bad? { return Some(bytes.defect); }
      if !slot.isDir {
        files := files[path := bytes.value];
        return None;
      }
      if depth == 0 { return Some(TooDeep); }
      defect := ReadEntries(v, bytes.value, path, depth - 1);
    }
  }

  /** fat16_files: all files of an image by path. */
  method Fat16Files(img: Bytes, limit: nat) returns (r: Outcome<Files>)
    ensures r == FilesOf(img, limit)
  {
    var volume := OpenVolume(img);
    if volume.Bad? { return Bad(volume.defect); }
    var v := volume.value;
    var walker := new Walker();
    var defect := walker.ReadEntries(v, img[v.rootStart..v.dataStart], [], limit);
    r := if defect.Some? then Bad(defect.value) else Ok(walker.files);
  }
}
