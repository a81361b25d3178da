/** Bounded self-relocation of the loader image (bootloader/uefi/reloc.c). */
module Reloc {
  import opened Words
  import opened LittleEndian
  import opened Patches

  const DYN_SIZE: nat := 16
  const RELA_SIZE: nat := 24
  const DT_NULL: int := 0
  const DT_RELA: int := 7
  const DT_RELASZ: int := 8
  const DT_RELAENT: int := 9
  const R_X86_64_RELATIVE: int := 8

  datatype Rela = Rela(offset: u64, info: u64, addend: i64)

  /** What the scan of the dynamic table has collected. */
  datatype Tags = Tags(rela: Option<u64>, relasz: Option<u64>, relaent: u64, terminated: bool)

  function RelaAt(img: Bytes, at: nat): Rela
    requires at + RELA_SIZE <= |img|
  {
    Rela(U64(img, at), U64(img, at + 8), AsSigned(U64(img, at + 16)))
  }

  /** base + addend, or nothing if the sum leaves the 64-bit range. */
  function AddSignedOk(base: u64, addend: i64): (r: Option<u64>)
    ensures r == if 0 <= base + addend < TWO64 then Some(base + addend) else None
  {
    if addend >= 0 then AddOk(base, addend)
    else
      var magnitude: int := -(addend as int);
      if base < magnitude then None else Some(base - magnitude)
  }

  // ---- the specification -------------------------------------------------------------

  /** The tags of the dynamic table from entry i on. */
  function Scan(img: Bytes, dyn: nat, i: nat, max: nat, t: Tags): Tags
    requires dyn + max * DYN_SIZE <= |img| && i <= max
    decreases max - i
  {
    if i == max then t
    else
      var tag, val := AsSigned(U64(img, dyn + i * DYN_SIZE)), U64(img, dyn + i * DYN_SIZE + 8);
      if tag == DT_NULL then t.(terminated := true)
      else Scan(img, dyn, i + 1, max, Collect(t, tag, val))
  }

  function Collect(t: Tags, tag: int, val: u64): Tags {
    if tag == DT_RELA then t.(rela := Some(val))
    else if tag == DT_RELASZ then t.(relasz := Some(val))
    else if tag == DT_RELAENT then t.(relaent := val)
    else t
  }

  const NO_TAGS: Tags := Tags(None, None, RELA_SIZE, false)

  /** The tags describe a table inside an image of size bytes. */
  predicate TableOk(t: Tags, size: nat) {
    t.terminated && t.rela.Some? && t.relasz.Some? && t.relaent == RELA_SIZE &&
    t.relasz.value % RELA_SIZE == 0 && t.rela.value + t.relasz.value <= size
  }

  /** A relocation that may be applied to an image of size bytes at base. */
  predicate Applicable(r: Rela, base: u64, size: nat) {
    r.info % TWO32 == R_X86_64_RELATIVE && r.offset + 8 <= size && 0 <= base + r.addend < TWO64
  }

  /** The write that entry e stands for in an image of size bytes at base, unless it is refused. */
  function Effect(e: Rela, base: u64, size: nat): (r: Option<Write>)
    ensures r.Some? ==> Fits(r.value, size)
  {
    if Applicable(e, base, size) then Some(Write(e.offset, Put64(base + e.addend))) else None
  }

  /** Applies entries i..count-1 of the table, reading each from the image as it then is. */
  function ApplyFrom(img: Bytes, base: u64, rela: nat, i: nat, count: nat): (bool, Bytes)
    requires rela + count * RELA_SIZE <= |img| && i <= count
    decreases count - i
  {
    if i == count then (true, img)
    else match Effect(RelaAt(img, rela + i * RELA_SIZE), base, |img|)
      case None => (false, img)
      case Some(w) => ApplyFrom(Patch(img, w), base, rela, i + 1, count)
  }

  /** What the tags demand of the image. */
  function ApplyTags(img: Bytes, base: u64, t: Tags): (bool, Bytes) {
    if !t.terminated || t.rela.Some? != t.relasz.Some? then (false, img)
    else if t.rela.None? then (true, img)
    else if !TableOk(t, |img|) then (false, img)
    else
      TableCount(t.rela.value, t.relasz.value, |img|);
      ApplyFrom(img, base, t.rela.value, 0, t.relasz.value / RELA_SIZE)
  }

  /** The dynamic table starts inside an image whose addresses do not wrap. */
  predicate InImage(base: u64, size: nat, dyn: int) {
    0 < size && base + size < TWO64 && 0 <= dyn && dyn + DYN_SIZE <= size
  }

  function Room(size: nat, dyn: nat): (max: nat)
    requires dyn <= size
    ensures dyn + max * DYN_SIZE <= size < dyn + max * DYN_SIZE + DYN_SIZE
  {
    (size - dyn) / DYN_SIZE
  }

  /** The whole relocation: success and the resulting image; dyn is the offset of the dynamic table. */
  function Relocated(img: Bytes, base: u64, dyn: int): (bool, Bytes) {
    if !InImage(base, |img|, dyn) then (false, img)
    else ApplyTags(img, base, Scan(img, dyn, 0, Room(|img|, dyn), NO_TAGS))
  }

  // ---- the code ------------------------------------------------------------------------

  method Store64(image: array<u8>, at: nat, bytes: Bytes)
    requires |bytes| == 8 && at + 8 <= image.Length
    modifies image
    ensures image[..] == Patch(old(image[..]), Write(at, bytes))
  {
    for k := 0 to 8
      invariant forall b :: 0 <= b < image.Length ==>
        image[b] == if at <= b < at + k then bytes[b - at] else old(image[b])
    {
      image[at + k] := bytes[k];
    }
    PatchAt(old(image[..]), Write(at, bytes));
    assert forall b :: 0 <= b < image.Length ==> image[..][b] == Patch(old(image[..]), Write(at, bytes))[b];
  }

  method ScanDynamic(image: array<u8>, dyn: nat, max: nat) returns (t: Tags)
    requires dyn + max * DYN_SIZE <= image.Length
    ensures t == Scan(image[..], dyn, 0, max, NO_TAGS)
  {
    t := NO_TAGS;
    for i := 0 to max
      invariant Scan(image[..], dyn, 0, max, NO_TAGS) == Scan(image[..], dyn, i, max, t)
    {
      var tag, val := AsSigned(U64(image[..], dyn + i * DYN_SIZE)), U64(image[..], dyn + i * DYN_SIZE + 8);
      if tag == DT_NULL {
        return t.(terminated := true);
      }
      t := Collect(t, tag, val);
    }
  }

  /** One table entry: tested, then written. */
  method ApplyEntry(image: array<u8>, base: u64, r: Rela) returns (ok: bool)
    requires base + image.Length < TWO64
    modifies image
    ensures ok <==> Effect(r, base, image.Length).Some?
    ensures image[..] == if ok then Patch(old(image[..]), Effect(r, base, image.Length).value) else old(image[..])
  {
    hide Put64, Patch;
    if r.info % TWO32 != R_X86_64_RELATIVE { return false; }
    if r.offset > image.Length || 8 > image.Length - r.offset { return false; }
    var target := AddOk(base, r.offset);
    var value := AddSignedOk(base, r.addend);
    if target.None? || value.None? { return false; }
    Store64(image, target.value - base, Put64(value.value));
    ok := true;
  }

  method ApplyTable(image: array<u8>, base: u64, rela: nat, count: nat) returns (ok: bool)
    requires base + image.Length < TWO64 && rela + count * RELA_SIZE <= image.Length
    modifies image
    ensures (ok, image[..]) == ApplyFrom(old(image[..]), base, rela, 0, count)
  {
    ghost var img := image[..];
    for i := 0 to count
      invariant img == image[..] && ApplyFrom(old(image[..]), base, rela, 0, count) == ApplyFrom(img, base, rela, i, count)
    {
      ApplyStep(img, base, rela, i, count);
      ok := ApplyEntry(image, base, RelaAt(image[..], rela + i * RELA_SIZE));
      if !ok { return; }
      img := image[..];
    }
    ok := true;
  }

  lemma ApplyStep(img: Bytes, base: u64, rela: nat, i: nat, count: nat)
    requires rela + count * RELA_SIZE <= |img| && i < count
    ensures ApplyFrom(img, base, rela, i, count) ==
      match Effect(RelaAt(img, rela + i * RELA_SIZE), base, |img|)
      case None => (false, img)
      case Some(w) => ApplyFrom(Patch(img, w), base, rela, i + 1, count)
  {
  }

  lemma TableCount(rela: nat, relasz: nat, size: nat)
    requires relasz % RELA_SIZE == 0 && rela + relasz <= size
    ensures rela + relasz / RELA_SIZE * RELA_SIZE <= size
  {
  }

  method UseTags(image: array<u8>, base: u64, t: Tags) returns (ok: bool)
    requires base + image.Length < TWO64
    modifies image
    ensures (ok, image[..]) == ApplyTags(old(image[..]), base, t)
  {
    if !t.terminated || t.rela.Some? != t.relasz.Some? { return false; }
    if t.rela.None? { return true; }
    if t.relaent != RELA_SIZE || t.relasz.value % t.relaent != 0 { return false; }
    if t.rela.value > image.Length || t.relasz.value > image.Length - t.rela.value { return false; }
    TableCount(t.rela.value, t.relasz.value, image.Length);
    ok := ApplyTable(image, base, t.rela.value, t.relasz.value / RELA_SIZE);
  }

  /** The checks on the loaded range; max is the number of dynamic entries that fit. */
  method CheckImage(base: u64, size: u64, dynamic: u64) returns (max: Option<nat>)
    ensures max == if InImage(base, size, dynamic - base) then Some(Room(size, dynamic - base)) else None
  {
    if size == 0 { return None; }
    var imageEnd := AddOk(base, size);
    if imageEnd.None? { return None; }
    if dynamic < base || dynamic > imageEnd.value || imageEnd.value - dynamic < DYN_SIZE { return None; }
    assert imageEnd.value - dynamic == size - (dynamic - base);
    max := Some((imageEnd.value - dynamic) / DYN_SIZE);
  }

  /**
   * sypas_reloc: image is the memory [base, base + image_size). Whatever the bytes, even when
   * relocations overwrite the table being read, every access stays inside the image.
   */
  method SypasReloc(image: array<u8>, base: u64, dynamic: u64) returns (code: u64)
    requires image.Length < TWO64
    modifies image
    ensures (code == 0, image[..]) == Relocated(old(image[..]), base, dynamic - base)
  {
    var max := CheckImage(base, image.Length, dynamic);
    if max.None? { return 1; }
    var t := ScanDynamic(image, dynamic - base, max.value);
    var ok := UseTags(image, base, t);
    code := if ok then 0 else 1;
  }
}
