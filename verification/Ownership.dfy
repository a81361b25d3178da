/** From the kernel file and the firmware's map to every page the kernel allocator hands out. */
module Ownership {
  import opened Words
  import opened LittleEndian
  import opened Elf
  import opened ElfBytes
  import opened Loader
  import opened MapSpec
  import opened MapProgress
  import opened MemoryMap
  import opened MapTheorems
  import opened Handoff
  import opened PmmSpec
  import opened Pmm

  /** Every address of page p is conventional memory of the firmware map and no part of the kernel image. */
  ghost predicate FreeMemory(p: nat, ds: multiset<Descriptor>, segs: seq<Segment>) {
    forall a: nat :: p * PAGE <= a < (p + 1) * PAGE ==>
      (exists d :: d in ds && InDescriptor(d, a) && d.typ == CONVENTIONAL) && !InSegments(segs, a)
  }

  /** The usable pages of the translated map are exactly the pages that are free for the kernel to take. */
  lemma UsablePageIsFree(memmap: seq<Entry>, ds: multiset<Descriptor>, segs: seq<Segment>, cap: nat, p: nat)
    requires Translates(memmap, ds, segs) && Translatable(ds, segs, cap)
    ensures UsablePage(memmap, p) <==> FreeMemory(p, ds, segs)
  {
    if UsablePage(memmap, p) {
      var e :| e in memmap && EntryPage(e, p);
      assert EntryOk(e);
      PageInside(e, p);
      forall a: nat | p * PAGE <= a < (p + 1) * PAGE
        ensures (exists d :: d in ds && InDescriptor(d, a) && d.typ == CONVENTIONAL) && !InSegments(segs, a)
      {
        assert InEntry(e, a);
        UsableIsFree(memmap, ds, segs, cap, a);
      }
    }
    if FreeMemory(p, ds, segs) {
      var a := p * PAGE;
      assert !InSegments(segs, a);
      var d :| d in ds && InDescriptor(d, a) && d.typ == CONVENTIONAL;
      assert Owner(d, segs, a) == USABLE;
      assert Maps(memmap, a, USABLE);
    }
  }

  lemma PageInside(e: Entry, p: nat)
    requires EntryOk(e) && EntryPage(e, p)
    ensures (p + 1) * PAGE <= EndOf(e)
  {
    var b, l := e.base / PAGE, e.length / PAGE;
    assert EndOf(e) == (b + l) * PAGE;
    assert p < b + l;
  }

  /**
   * End-to-end ownership: whatever the firmware did, and in whatever order callers allocate and return
   * pages, every page that an allocator in a sound start state hands out is conventional memory,
   * outside every loaded segment, outside the bitmap, above 1 MiB, and not in anybody's hands. From a
   * sound state the allocator's calls are such a run: each one takes the step of its contract, and the
   * state after an allocation is sound.
   */
  lemma PagesAreOurs(pmm: PageAllocator, memmap: seq<Entry>, ds: multiset<Descriptor>, segs: seq<Segment>, cap: nat,
                     ws: seq<World>, es: seq<PmmSpec.Event>, n: nat, p: nat)
    requires Translates(memmap, ds, segs) && Translatable(ds, segs, cap)
    requires pmm.Initialized(memmap) && pmm.Sound()
    requires IsRun(ws, es) && ws[0] == World(pmm.Abstract(), {})
    requires n < |es| && es[n] == Allocated(p)
    ensures FreeMemory(p, ds, segs) && p * 4096 >= 0x10_0000 && !pmm.InBitmap(p) && p !in ws[n].held
  {
    assert Accounted(ws[0], pmm.free);
    RunAccounted(ws, es, pmm.free, n);
    UsablePageIsFree(memmap, ds, segs, cap, p);
  }

  /**
   * The first call on the allocator that pmm_init left behind: what it returns is memory if and only if
   * the state is sound.
   */
  method FirstPage(pmm: PageAllocator, ghost memmap: seq<Entry>, ghost ds: multiset<Descriptor>,
                   ghost segs: seq<Segment>, ghost cap: nat)
    returns (addr: u64)
    requires Translates(memmap, ds, segs) && Translatable(ds, segs, cap)
    requires pmm.Initialized(memmap)
    modifies pmm`cursor, pmm`freePages, pmm`free, pmm`phantoms, pmm.bitmap
    ensures addr == 0 <==> old(pmm.Sound()) && old(pmm.free) == {}
    ensures addr != 0 ==> (FreeMemory(addr / PAGE, ds, segs) <==> old(pmm.Sound()))
  {
    ghost var p;
    addr, p := pmm.Take();
    PageOf(addr, p);
    UsablePageIsFree(memmap, ds, segs, cap, p);
  }

  /** What a caller asks for: a page, or to give back one of the pages it holds. */
  datatype Request = Want | GiveBack(k: nat)

  /**
   * Any sequence of requests on the allocator that pmm_init left behind: the pages held are distinct,
   * and each of them is conventional memory outside the kernel image and the bitmap and above 1 MiB.
   */
  method Serve(pmm: PageAllocator, requests: seq<Request>, ghost memmap: seq<Entry>, ghost ds: multiset<Descriptor>,
               ghost segs: seq<Segment>, ghost cap: nat)
    returns (held: seq<u64>, ghost pages: seq<nat>)
    requires Translates(memmap, ds, segs) && Translatable(ds, segs, cap)
    requires pmm.Initialized(memmap) && pmm.Sound()
    modifies pmm`cursor, pmm`freePages, pmm`free, pmm`phantoms, pmm.bitmap
    ensures pmm.Valid() && Batch(pages, old(pmm.free), pmm.free)
    ensures |held| == |pages| && forall i :: 0 <= i < |held| ==> held[i] == pages[i] * PAGE
    ensures forall p <- pages :: FreeMemory(p, ds, segs) && p * 4096 >= 0x10_0000 && !pmm.InBitmap(p)
  {
    held, pages := [], [];
    ghost var pool := pmm.free;
    assert pmm.Serving([], [], pool);
    for i := 0 to |requests|
      invariant pmm.Serving(held, pages, pool)
    {
      match requests[i] {
        case Want => held, pages := pmm.Grant(held, pages, pool);
        case GiveBack(k) => if k < |held| { held, pages := pmm.TakeBack(held, pages, pool, k); }
      }
    }
    forall p | p in pages ensures FreeMemory(p, ds, segs) { UsablePageIsFree(memmap, ds, segs, cap, p); }
  }

  datatype BootResult =
    | Booted(memmap: seq<Entry>) | NotLoaded(why: LoadOutcome) | NotLeft(how: Handoff.Outcome) | Panicked(init: InitResult)

  lemma PlanSmall(file: Bytes, plan: LoadPlan)
    requires WellFormed(file) && IsPlanFor(plan, Phdrs(file), ParseEhdr(file).entry)
    ensures |plan.segs| <= MAX_SEGMENTS
  {
  }

  lemma EnteredCanonical(t: seq<Handoff.Event>, memmap: seq<Entry>, segs: seq<Segment>)
    requires KernelEntered(t, memmap, segs)
    ensures Canonical(memmap)
  {
  }

  /** Load, hand over and initialize, with the contracts of the stages meeting each other. */
  method Boot(file: Bytes, ram: array<u8>, grant: nat -> bool, fw: Firmware, pmm: PageAllocator, stray: bv8)
    returns (r: BootResult, plan: LoadPlan)
    requires |file| < TWO64 && ram.Length == TWO64 && fw.Lawful() && Handoff.Exits(fw.trace) == 0
    modifies ram, fw, pmm
    ensures Quiet(fw.trace) && Handoff.Exits(fw.trace) <= 4
    ensures r.Booted? ==> WellFormed(file) && IsPlanFor(plan, Phdrs(file), ParseEhdr(file).entry)
    ensures !r.NotLoaded? ==> AcceptedBytes(file) && plan.entry == Value(file, 24, 8) && AllRead(plan.segs, file)
    ensures r.NotLoaded? ==> fw.trace == old(fw.trace)
    ensures !r.NotLoaded? ==> forall s <- plan.segs :: SegmentSound(s, |file|)
    ensures !r.NotLoaded? ==> Executed(old(ram[..]), ram[..], file, plan.segs)
    ensures r.Booted? ==> EntryLoaded(ram[..], file, plan)
    ensures r.Booted? ==> KernelEntered(fw.trace, r.memmap, plan.segs) && pmm.Initialized(r.memmap)
  {
    hide AcceptedBytes, AllRead, Value, Executed, EntryLoaded, WellFormed, IsPlanFor, KernelEntered, Quiet,
      Handoff.Exits, SegmentSound;
    hide PageAllocator.Initialized, Left, SizedTo, Unsized, PagesAccounted;
    NoExitQuiet(fw.trace);
    var loaded;
    loaded, plan := LoadKernelElf(file, ram, grant);
    if !loaded.Entry? { return NotLoaded(loaded), plan; }
    EntryByteLoaded(old(ram[..]), ram[..], file, plan);
    PlanSmall(file, plan);
    ghost var image := ram[..];
    var out;
    ghost var last, b;
    out, last, b := Handoff.Handoff(fw, plan.segs);
    if !out.Jumped? { return NotLeft(out), plan; }
    EnteredCanonical(fw.trace, out.memmap, plan.segs);
    var ready := pmm.Init(out.memmap, stray);
    if ready != Ready { return BootResult.Panicked(ready), plan; }
    r := Booted(out.memmap);
    assert ram[..] == image;
  }
}
