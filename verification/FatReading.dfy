/** What the validator demands of an image and makes of its bytes, in the numbers of the FAT specification. */
module FatReading {
  import opened Words
  import opened LittleEndian
  import opened FatNames
  import opened FatReader

  // ---- the boot sector ------------------------------------------------------------------------

  /** The number of sectors: the 16-bit field, or the 32-bit field if that is zero. */
  function TotalOf(img: Bytes): nat
    requires |img| >= 512
  {
    if Value(img, 19, 2) != 0 then Value(img, 19, 2) else Value(img, 32, 4)
  }

  /** The first bytes of the FAT, the root directory and the clusters. */
  function FatByte(img: Bytes): nat requires |img| >= 512 { Value(img, 14, 2) * 512 }
  function RootByte(img: Bytes): nat requires |img| >= 512 { (Value(img, 14, 2) + 2 * Value(img, 22, 2)) * 512 }
  function DataByte(img: Bytes): nat requires |img| >= 512 { RootByte(img) + 32 * Value(img, 17, 2) }

  /** The first demand on the boot sector that the image does not meet. */
  predicate Unfit(img: Bytes, d: Defect) {
    if |img| < 512 then d == TooShort
    else if img[510] != 0x55 || img[511] != 0xAA then d == NoSignature
    else if Value(img, 11, 2) != 512 then d == SectorSize
    else if img[13] != 1 then d == ClusterSize
    else if img[16] != 2 then d == FatCount
    else if img[54..62] != [70, 65, 84, 49, 54, 32, 32, 32] then d == NoLabel
    else if TotalOf(img) * 512 > |img| then d == ExceedsImage
    else d == BadLayout && (FatByte(img) + 512 * Value(img, 22, 2) > |img| || DataByte(img) > |img|)
  }

  lemma OpenPlainly(img: Bytes)
    ensures OpenVolume(img).Bad? ==> Unfit(img, OpenVolume(img).defect)
    ensures OpenVolume(img).Ok? ==> (forall d :: !Unfit(img, d))
    ensures OpenVolume(img).Ok? ==> var v := OpenVolume(img).value;
      v.img == img && v.rootStart == RootByte(img) && v.dataStart == DataByte(img) &&
      FatByte(img) + 512 * Value(img, 22, 2) <= |img| && v.fat == img[FatByte(img)..FatByte(img) + 512 * Value(img, 22, 2)]
  {
    hide Value;
    if |img| >= 512 {
      FieldValues(img, 11);
      FieldValues(img, 14);
      FieldValues(img, 17);
      FieldValues(img, 19);
      FieldValues(img, 22);
      FieldValues(img, 32);
      assert FAT16_LABEL == [70, 65, 84, 49, 54, 32, 32, 32];
    }
  }

  // ---- chains -------------------------------------------------------------------------------------

  /** Cluster c has its bytes in the image and its word in the FAT. */
  predicate Usable(img: Bytes, c: nat)
    requires |img| >= 512
  {
    2 <= c && DataByte(img) + (c - 2) * 512 + 512 <= |img| && c < 256 * Value(img, 22, 2) && FatByte(img) + 2 * c + 2 <= |img|
  }

  /** The clusters of path, linked by the 16-bit words of the FAT up to an end mark. */
  ghost predicate PlainChain(img: Bytes, first: nat, path: seq<nat>)
    requires |img| >= 512
    decreases |path|
  {
    if path == [] then first >= 0xFFF8
    else
      first == path[0] && first < 0xFFF8 && Usable(img, first) &&
      PlainChain(img, Value(img, FatByte(img) + 2 * first, 2), path[1..])
  }

  lemma LinkPlainly(img: Bytes, v: View, c: nat)
    requires OpenVolume(img) == Ok(v)
    ensures |img| >= 512 && (InVolume(v, c) <==> Usable(img, c))
    ensures InVolume(v, c) ==> Next(v, c) == Value(img, FatByte(img) + 2 * c, 2)
  {
    assert |img| >= 512;
    OpenPlainly(img);
    FatViewPlainly(img, v);
    hide OpenVolume, Value, FatByte, DataByte;
    if c < 256 * Value(img, 22, 2) { WordPlainly(img, v, c); }
  }

  lemma {:induction false} ChainPlainly(img: Bytes, v: View, first: nat, path: seq<nat>)
    requires OpenVolume(img) == Ok(v)
    ensures |img| >= 512 && (IsChain(v, first, path) <==> PlainChain(img, first, path))
    decreases |path|
  {
    hide OpenVolume, InVolume, Usable, Value, FatByte, Next;
    LinkPlainly(img, v, first);
    if path != [] && InVolume(v, first) { ChainPlainly(img, v, Next(v, first), path[1..]); }
  }

  lemma FatViewPlainly(img: Bytes, v: View)
    requires OpenVolume(img) == Ok(v)
    ensures |v.fat| == 512 * Value(img, 22, 2) && FatByte(img) + 512 * Value(img, 22, 2) <= |img|
  {
    OpenPlainly(img);
  }

  lemma WordPlainly(img: Bytes, v: View, c: nat)
    requires OpenVolume(img) == Ok(v) && c < 256 * Value(img, 22, 2)
    ensures |v.fat| == 512 * Value(img, 22, 2) && FatByte(img) + 2 * c + 2 <= |img|
    ensures U16(v.fat, 2 * c) == Value(img, FatByte(img) + 2 * c, 2)
  {
    OpenPlainly(img);
    hide OpenVolume;
    FieldValues(img, FatByte(img) + 2 * c);
    assert v.fat[2 * c] == img[FatByte(img) + 2 * c] && v.fat[2 * c + 1] == img[FatByte(img) + 2 * c + 1];
  }

  // ---- entries ----------------------------------------------------------------------------------------

  predicate White(c: nat) { c == 32 || 9 <= c <= 13 || 28 <= c <= 31 }

  /** r is s without the white space at its end. */
  predicate Trimmed(s: Text, r: Text) {
    r <= s && (forall i :: |r| <= i < |s| ==> White(s[i])) && (r != [] ==> !White(r[|r| - 1]))
  }

  lemma {:induction false} StripTrims(s: Text)
    ensures Trimmed(s, RStrip(s))
  {
    if EndsInSpace(s) {
      var t := s[..|s| - 1];
      StripTrims(t);
      assert forall i :: 0 <= i < |t| ==> t[i] == s[i];
    }
  }

  /** name is what eight and three bytes spell. */
  ghost predicate Spells(ent: Bytes, name: Text)
    requires |ent| >= 11
  {
    exists base, ext ::
      Trimmed(ent[..8], base) && Trimmed(ent[8..11], ext) && name == if ext == [] then base else base + [46] + ext
  }

  /**
   * What an entry is to the validator: free (0xE5) and long-name entries (attribute 0x0F) and the names .
   * and .. are passed over, a byte above 127 in the name is a defect, and all else is a file or, with bit 4
   * of the attribute, a directory, with its first cluster and its size.
   */
  lemma SlotPlainly(ent: Bytes)
    requires |ent| == 32
    ensures ent[0] == 0xE5 || ent[11] == 0x0F ==> ReadSlot(ent) == Ok(None)
    ensures ReadSlot(ent).Bad? <==> !(ent[0] == 0xE5 || ent[11] == 0x0F) && exists i :: 0 <= i < 11 && ent[i] >= 128
    ensures ReadSlot(ent) == Ok(None) && ent[0] != 0xE5 && ent[11] != 0x0F ==> Spells(ent, [46]) || Spells(ent, [46, 46])
    ensures ReadSlot(ent).Ok? && ReadSlot(ent).value.Some? ==> var s := ReadSlot(ent).value.value;
      Spells(ent, s.name) && s.name != [46] && s.name != [46, 46] && (s.isDir <==> ent[11] / 16 % 2 == 1) &&
      s.cluster == Value(ent, 26, 2) && s.size == Value(ent, 28, 4)
  {
    hide Value;
    FieldValues(ent, 26);
    FieldValues(ent, 28);
    var raw := ent[..11];
    assert raw[..8] == ent[..8] && raw[8..] == ent[8..11];
    assert Ascii(raw) <==> forall i :: 0 <= i < 11 ==> ent[i] < 128 by { AsciiBytes(ent); }
    StripTrims(raw[..8]);
    StripTrims(raw[8..]);
    hide Trimmed, RStrip, Ascii;
    assert Spells(ent, if RStrip(raw[8..]) == [] then RStrip(raw[..8]) else RStrip(raw[..8]) + [46] + RStrip(raw[8..]));
  }

  lemma AsciiBytes(ent: Bytes)
    requires |ent| >= 11
    ensures Ascii(ent[..11]) <==> forall i :: 0 <= i < 11 ==> ent[i] < 128
  {
    var raw := ent[..11];
    assert forall i :: 0 <= i < 11 ==> raw[i] == ent[i];
  }

  /** There is one spelling. */
  lemma SpellsOnce(ent: Bytes, m: Text, n: Text)
    requires |ent| >= 11 && Spells(ent, m) && Spells(ent, n)
    ensures m == n
  {
    var b, e :| Trimmed(ent[..8], b) && Trimmed(ent[8..11], e) && m == if e == [] then b else b + [46] + e;
    var b', e' :| Trimmed(ent[..8], b') && Trimmed(ent[8..11], e') && n == if e' == [] then b' else b' + [46] + e';
    TrimmedOnce(ent[..8], b, b');
    TrimmedOnce(ent[8..11], e, e');
  }

  lemma TrimmedOnce(s: Text, q: Text, r: Text)
    requires Trimmed(s, q) && Trimmed(s, r)
    ensures q == r
  {
    assert r != [] ==> r[|r| - 1] == s[|r| - 1];
    assert q != [] ==> q[|q| - 1] == s[|q| - 1];
    assert q == s[..|q|] && r == s[..|r|];
  }
}
