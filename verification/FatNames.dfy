/** 8.3 names: how the image builder packs them and how the validator reads them back. */
module FatNames {
  import opened Words
  import opened LittleEndian

  /** Text as character codes. */
  type Text = seq<nat>

  const DOT: nat := '.' as int
  const SPACE: nat := ' ' as int
  const SLASH: nat := '/' as int

  predicate Ascii(s: Text) { forall i :: 0 <= i < |s| ==> s[i] < 128 }

  function UpperCode(c: nat): nat {
    if 'a' as int <= c <= 'z' as int then c - 32 else c
  }

  function Upper(s: Text): (r: Text)
    ensures |r| == |s|
  {
    seq(|s|, i requires 0 <= i < |s| => UpperCode(s[i]))
  }

  /** The place of the last dot, or |s| if there is none. */
  function LastDot(s: Text): (k: nat)
    ensures k <= |s|
    ensures k < |s| ==> s[k] == DOT && forall i :: k < i < |s| ==> s[i] != DOT
    ensures k == |s| ==> DOT !in s
  {
    if s == [] then 0
    else
      var k := LastDot(s[1..]);
      if k < |s| - 1 then k + 1 else if s[0] == DOT then 0 else |s|
  }

  /** The name is split at its last dot, unless it has none or starts with one. */
  predicate HasExtension(s: Text) { LastDot(s) < |s| && s[0] != DOT }

  function BaseOf(s: Text): Text { if HasExtension(s) then s[..LastDot(s)] else s }

  function ExtOf(s: Text): Text { if HasExtension(s) then s[LastDot(s) + 1..] else [] }

  function PadTo(s: Text, n: nat): (r: Text)
    ensures |s| <= n ==> |r| == n
  {
    if |s| < n then s + seq(n - |s|, _ => SPACE) else s
  }

  lemma PadAscii(s: Text, n: nat)
    requires Ascii(s)
    ensures Ascii(PadTo(s, n))
  {
  }

  /** The eleven bytes of a directory entry, or nothing if the name does not fit 8.3 or is not ASCII. */
  function Name83(name: Text): (r: Option<Bytes>)
    ensures r.Some? ==> |r.value| == 11 && Ascii(r.value)
  {
    var s := Upper(name);
    var base, ext := BaseOf(s), ExtOf(s);
    if |base| > 8 || |ext| > 3 || !Ascii(base) || !Ascii(ext) then None
    else
      PadAscii(base, 8);
      PadAscii(ext, 3);
      Some(PadTo(base, 8) + PadTo(ext, 3))
  }

  // ---- reading names -------------------------------------------------------------

  predicate IsSpace(c: nat) { c == SPACE || 9 <= c <= 13 || 28 <= c <= 31 }

  predicate EndsInSpace(s: Text) { |s| > 0 && IsSpace(s[|s| - 1]) }

  function RStrip(s: Text): (r: Text)
    ensures r <= s && !EndsInSpace(r)
  {
    if EndsInSpace(s) then RStrip(s[..|s| - 1]) else s
  }

  function ShortName(raw: Bytes): Option<Text>
    requires |raw| == 11
  {
    if !Ascii(raw) then None
    else
      var name, ext := RStrip(raw[..8]), RStrip(raw[8..]);
      Some(if ext == [] then name else name + [DOT] + ext)
  }

  // ---- the names that packing keeps ------------------------------------------------------

  /** Upper-case ASCII within 8.3, no part ending in white space, and an extension after the dot. */
  predicate Canonical(n: Text) {
    Upper(n) == n && Ascii(n) && |BaseOf(n)| <= 8 && |ExtOf(n)| <= 3 && !EndsInSpace(BaseOf(n)) &&
    (HasExtension(n) ==> ExtOf(n) != [] && !EndsInSpace(ExtOf(n)))
  }

  lemma {:induction false} StripPadding(s: Text, k: nat)
    ensures RStrip(s + seq(k, _ => SPACE)) == RStrip(s)
    decreases k
  {
    var t := s + seq(k, _ => SPACE);
    if k == 0 {
      assert t == s;
    } else {
      assert t[..|t| - 1] == s + seq(k - 1, _ => SPACE);
      StripPadding(s, k - 1);
    }
  }

  lemma StripPadTo(s: Text, n: nat)
    ensures RStrip(PadTo(s, n)) == RStrip(s)
  {
    if |s| < n { StripPadding(s, n - |s|); }
  }

  lemma SplitJoins(s: Text)
    ensures HasExtension(s) ==> s == BaseOf(s) + [DOT] + ExtOf(s)
  {
  }

  /** What is left of a split name when each part loses its trailing white space. */
  function Shown(s: Text): Text {
    var ext := RStrip(ExtOf(s));
    if ext == [] then RStrip(BaseOf(s)) else RStrip(BaseOf(s)) + [DOT] + ext
  }

  /** What the validator makes of a packed name. */
  lemma ShownName(n: Text)
    requires Name83(n).Some?
    ensures ShortName(Name83(n).value) == Some(Shown(Upper(n)))
  {
    var s := Upper(n);
    var raw := Name83(n).value;
    assert raw[..8] == PadTo(BaseOf(s), 8) && raw[8..] == PadTo(ExtOf(s), 3);
    StripPadTo(BaseOf(s), 8);
    StripPadTo(ExtOf(s), 3);
  }

  /** Only a text whose parts have nothing to strip is shown at full length. */
  lemma ShownWhole(s: Text)
    requires |Shown(s)| == |s|
    ensures Shown(s) == s && !EndsInSpace(BaseOf(s))
    ensures HasExtension(s) ==> ExtOf(s) != [] && !EndsInSpace(ExtOf(s))
  {
    var base, ext := BaseOf(s), ExtOf(s);
    SplitJoins(s);
    assert |RStrip(base)| <= |base| && |RStrip(ext)| <= |ext|;
    assert RStrip(base) == base && RStrip(ext) == ext;
  }

  lemma CanonicalIsShown(n: Text)
    requires Canonical(n)
    ensures Name83(n).Some? && Shown(n) == n
  {
    SplitJoins(n);
    assert forall c <- BaseOf(n) + ExtOf(n) :: c in n;
  }

  /** A name is packed and read back as itself exactly if it is canonical. */
  lemma NameRoundTrip(n: Text)
    ensures Name83(n).Some? && ShortName(Name83(n).value) == Some(n) <==> Canonical(n)
  {
    if Canonical(n) {
      CanonicalIsShown(n);
      ShownName(n);
    } else if Name83(n).Some? {
      ShownName(n);
      if Shown(Upper(n)) == n {
        ShownWhole(Upper(n));
        SplitJoins(n);
        assert false by { AsciiParts(n); }
      }
    }
  }

  lemma AsciiParts(n: Text)
    requires Ascii(BaseOf(n)) && Ascii(ExtOf(n))
    ensures Ascii(n)
  {
    SplitJoins(n);
  }
}
