/** Ordered writes of byte strings into an image, each of which may be refused. */
module Patches {
  import opened Words
  import opened LittleEndian
  import opened Slices

  datatype Write = Write(at: nat, bytes: Bytes)

  predicate Fits(w: Write, size: nat) { w.at + |w.bytes| <= size }

  predicate Hits(w: Write, b: int) { w.at <= b < w.at + |w.bytes| }

  /** The image with the bytes of w in place. */
  function Patch(img: Bytes, w: Write): (r: Bytes)
    requires Fits(w, |img|)
    ensures |r| == |img|
  {
    Overlay(img, w.at, w.bytes)
  }

  lemma PatchAt(img: Bytes, w: Write)
    requires Fits(w, |img|)
    ensures forall b :: 0 <= b < |img| ==> Patch(img, w)[b] == if Hits(w, b) then w.bytes[b - w.at] else img[b]
  {
  }

  /** Performs the writes from i on until one is refused or does not fit. */
  function PatchAll(img: Bytes, ws: seq<Option<Write>>, i: nat): (r: (bool, Bytes))
    requires i <= |ws|
    ensures |r.1| == |img|
    decreases |ws| - i
  {
    if i == |ws| then (true, img)
    else if ws[i].None? || !Fits(ws[i].value, |img|) then (false, img)
    else PatchAll(Patch(img, ws[i].value), ws, i + 1)
  }

  predicate Performed(w: Option<Write>, size: nat) { w.Some? && Fits(w.value, size) }

  /** Byte b is hit by one of the writes from i on. */
  ghost predicate Target(ws: seq<Option<Write>>, i: nat, b: int) {
    exists k :: i <= k < |ws| && ws[k].Some? && Hits(ws[k].value, b)
  }

  /** Whether all writes happen depends only on the writes and the size. */
  lemma {:induction false} PatchAllOk(img: Bytes, ws: seq<Option<Write>>, i: nat)
    requires i <= |ws|
    ensures PatchAll(img, ws, i).0 <==> forall k :: i <= k < |ws| ==> Performed(ws[k], |img|)
    decreases |ws| - i
  {
    if i < |ws| && Performed(ws[i], |img|) {
      PatchAllOk(Patch(img, ws[i].value), ws, i + 1);
    }
  }

  /** Bytes that no write hits are unchanged. */
  lemma {:induction false} PatchAllFrame(img: Bytes, ws: seq<Option<Write>>, i: nat, b: nat)
    requires i <= |ws| && b < |img| && !Target(ws, i, b)
    ensures PatchAll(img, ws, i).1[b] == img[b]
    decreases |ws| - i
  {
    if i < |ws| && Performed(ws[i], |img|) {
      PatchAt(img, ws[i].value);
      PatchAllFrame(Patch(img, ws[i].value), ws, i + 1, b);
    }
  }

  /** The last write that hits a byte determines it. */
  lemma {:induction false} PatchAllValue(img: Bytes, ws: seq<Option<Write>>, i: nat, k: nat, b: nat)
    requires i <= k < |ws| && b < |img| && PatchAll(img, ws, i).0
    requires ws[k].Some? && Hits(ws[k].value, b) && !Target(ws, k + 1, b)
    ensures PatchAll(img, ws, i).1[b] == ws[k].value.bytes[b - ws[k].value.at]
    decreases |ws| - i
  {
    PatchAt(img, ws[i].value);
    var next := Patch(img, ws[i].value);
    if i < k {
      PatchAllValue(next, ws, i + 1, k, b);
    } else {
      PatchAllFrame(next, ws, i + 1, b);
    }
  }

  /** Images that differ only in bytes still to be written end up equal. */
  lemma {:induction false} PatchAllAgrees(x: Bytes, y: Bytes, ws: seq<Option<Write>>, i: nat)
    requires |x| == |y| && i <= |ws| && PatchAll(x, ws, i).0
    requires forall b: nat :: b < |x| && !Target(ws, i, b) ==> x[b] == y[b]
    ensures PatchAll(x, ws, i) == PatchAll(y, ws, i)
    decreases |ws| - i
  {
    if i == |ws| {
      assert x == y by { assert forall b: nat :: b < |x| ==> !Target(ws, i, b); }
    } else {
      var w := ws[i].value;
      PatchAt(x, w);
      PatchAt(y, w);
      forall b: nat | b < |x| && !Target(ws, i + 1, b) ensures Patch(x, w)[b] == Patch(y, w)[b] {
        if !Hits(w, b) { assert !Target(ws, i, b); }
      }
      PatchAllAgrees(Patch(x, w), Patch(y, w), ws, i + 1);
    }
  }
}
