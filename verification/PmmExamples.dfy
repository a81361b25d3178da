/** The page allocator on concrete machines: what happens where its promises are conditional. */
module PmmExamples {
  import opened Words
  import opened MapSpec
  import opened PmmSpec
  import opened Pmm

  /**
   * A machine whose only memory above 1 MiB is one page, which the bitmap takes. The RAM behind the
   * bitmap is zero. The first allocation returns a page that is no memory.
   */
  method UnsoundBoot(pmm: PageAllocator) returns (boot: seq<Entry>, addr: u64)
    modifies pmm
    ensures Canonical(boot) && addr == 264 * PAGE && !UsablePage(boot, 264)
  {
    boot := [Entry(0x107000, 0x1000, USABLE, 0)];
    assert boot[0] in boot;
    FitsAt(boot, 0x107000);
    var ready := pmm.Init(boot, 0);
    BehindTheBitmap(pmm);
    addr := pmm.AllocPage();
  }

  /** Three pages from 1 MiB on, of which the bitmap takes the first. */
  method SmallBoot(pmm: PageAllocator)
    modifies pmm
    ensures pmm.Valid() && pmm.Sound() && fresh(pmm.bitmap) && pmm.Initialized([Entry(0x100000, 0x3000, USABLE, 0)])
    ensures pmm.highestPage == 259 && pmm.bitmapBase == 0x100000 && pmm.free == {257, 258}
  {
    hide UsablePage, UsableSet, FirstFit, Extends, Canonical, PlaceIn, PageAllocator.BytesCounted, PageAllocator.Tied;
    var e := Entry(0x100000, 0x3000, USABLE, 0);
    OneEntry(e);
    FitsAt([e], 0x100000);
    var ready := pmm.Init([e], 0);
    SmallMap(e, pmm.highestPage, pmm.bitmapBytes, pmm.bitmapBase);
  }

  lemma OneEntry(e: Entry)
    requires EntryOk(e)
    ensures Canonical([e]) && e in [e]
  {
  }

  lemma FitsAt(boot: seq<Entry>, base: u64)
    requires |boot| == 1 && boot[0].typ == USABLE && boot[0].base == base >= LOW_PAGES * PAGE
    ensures forall bytes: u64 :: bytes <= boot[0].length ==> PlaceIn(boot[0], bytes).Some?
  {
  }

  lemma SmallMap(e: Entry, pages: nat, bytes: u64, base: u64)
    requires e == Entry(0x100000, 0x3000, USABLE, 0)
    requires Extends([e], pages * PAGE) && bytes == (pages + 7) / 8 && FirstFit([e], bytes, base)
    ensures pages == 259 && base == 0x100000 && PagesUp(base + bytes) == 257
    ensures forall q: nat :: UsablePage([e], q) <==> 256 <= q < 259
  {
    assert EntryPage(e, 256) && e in [e];
    forall q: nat ensures UsablePage([e], q) <==> 256 <= q < 259 {
      if 256 <= q < 259 { assert EntryPage(e, q); }
    }
  }

  /** On two free pages the self-test fails on memory that works, and then no page can be had. */
  method SelfTestLeaks(pmm: PageAllocator) returns (before: u64, r: TestResult, addr: u64)
    modifies pmm
    ensures before == 2 && r == Failed && addr == 0
  {
    SmallBoot(pmm);
    before := pmm.freePages;
    ghost var taken, p;
    r, taken := pmm.SelfTest(a => a, (a, v) => v);
    addr, p := pmm.Take();
  }

  /** Nobody ever got the bitmap's own page, but it can be given back, and is handed out. */
  method BitmapHandedOut(pmm: PageAllocator) returns (freed: FreeResult, got: array<u64>)
    modifies pmm
    ensures freed == Freed && pmm.bitmapBase in got[..]
  {
    freed := GiveBitmapPage(pmm);
    got := new u64[3];
    DrainFor(pmm, got, 256);
  }

  method GiveBitmapPage(pmm: PageAllocator) returns (freed: FreeResult)
    modifies pmm
    ensures freed == Freed && pmm.Valid() && pmm.Sound() && fresh(pmm.bitmap)
    ensures pmm.free == {256, 257, 258} && pmm.bitmapBase == 0x100000
  {
    hide PageAllocator.Intact, PageAllocator.Initialized;
    SmallBoot(pmm);
    freed := pmm.FreePage(0x100000);
  }

  /** Allocating as many pages as are free gets every one of them. */
  method DrainFor(pmm: PageAllocator, got: array<u64>, ghost p: nat)
    requires pmm.Valid() && pmm.Sound() && got as object != pmm.bitmap as object && |pmm.free| == got.Length > 0
    requires p in pmm.free
    modifies pmm`cursor, pmm`freePages, pmm`free, pmm`phantoms, pmm.bitmap, got
    ensures exists i :: 0 <= i < got.Length && got[i] == p * PAGE
  {
    var n;
    ghost var taken, k;
    n, taken, k := pmm.TakeBatch(got);
    TakenAll(taken, old(pmm.free), pmm.free, p);
    ghost var j :| 0 <= j < |taken| && taken[j] == p;
    assert got[k + j] == p * PAGE;
  }

  lemma TakenAll(taken: seq<nat>, before: set<nat>, free: set<nat>, p: nat)
    requires Batch(taken, before, free) && |taken| == |before| && p in before
    ensures p in taken
  {
  }

  /**
   * A machine with usable memory below 1 MiB: the bitmap goes to 1 MiB although there is room below, and
   * the first page handed out is the one behind it.
   */
  method LowMemoryBoot(pmm: PageAllocator) returns (boot: seq<Entry>, addr: u64)
    modifies pmm
    ensures Canonical(boot) && |boot| == 3 && boot[0] == Entry(0, 0x9F000, 1, 0)
    ensures pmm.bitmapBase == 0x10_0000 && addr == 0x10_1000
  {
    hide PageAllocator.Tied, PageAllocator.BytesCounted, FirstFit, UsablePage, UsableSet, Extends, PlaceIn;
    boot := [Entry(0, 0x9F000, 1, 0), Entry(0x9F000, 0x61000, 2, 0), Entry(0x10_0000, 0x7F0_0000, 1, 0)];
    ThreeEntries(boot);
    var ready := pmm.Init(boot, 0);
    LowMemoryMap(boot, pmm.highestPage, pmm.bitmapBytes);
    assert RoomAt(boot, 0x1000, 0x10_0000);
    assert PlainlyFree(boot, 0x10_0000, 0x1000, 257) by { assert boot[2] in boot; }
    ghost var s := pmm.Abstract();
    FirstAtCursor(s);
    addr := pmm.AllocPage();
  }

  lemma ThreeEntries(boot: seq<Entry>)
    requires boot == [Entry(0, 0x9F000, 1, 0), Entry(0x9F000, 0x61000, 2, 0), Entry(0x10_0000, 0x7F0_0000, 1, 0)]
    ensures Canonical(boot) && boot[2] in boot
    ensures forall e <- boot :: e.typ == 1 ==> e.base + e.length <= 0x800_0000
  {
  }

  lemma LowMemoryMap(boot: seq<Entry>, pages: nat, bytes: u64)
    requires |boot| == 3 && boot[2] == Entry(0x10_0000, 0x7F0_0000, 1, 0) && TopAt(boot, pages * 4096)
    requires forall e <- boot :: e.typ == 1 ==> e.base + e.length <= 0x800_0000
    requires 8 * bytes < pages + 8 && pages <= 8 * bytes
    ensures pages == 0x8000 && bytes == 0x1000 && RoomAt(boot, bytes, 0x10_0000)
  {
    assert boot[2] in boot;
  }

  /** A free page at the cursor is the next fit. */
  lemma FirstAtCursor(s: State)
    requires Ring(s) && s.cursor < s.pages && s.cursor in s.free
    ensures NextFit(s, 0) == Some(s.cursor)
  {
    assert PageAt(s, 0) == s.cursor;
  }
}
