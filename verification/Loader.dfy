/** Executing a load plan on physical memory (load_kernel_elf in bootloader/uefi/main.c). */
module Loader {
  import opened Words
  import opened LittleEndian
  import opened Elf
  import opened ElfBytes

  datatype LoadOutcome = Entry(entry: u64) | Rejected(status: ElfStatus) | Occupied(segment: nat)

  predicate InPages(s: Segment, a: int) { s.pageBase <= a < s.pageEnd }

  /** The pages of s hold its file bytes at paddr and zeros everywhere else. */
  ghost predicate SegmentInRam(ram: Bytes, f: Bytes, s: Segment)
    requires s.pageEnd <= |ram| && SegmentSound(s, |f|)
  {
    forall a: nat {:trigger ram[a]} :: InPages(s, a) ==>
      ram[a] == if s.paddr <= a < s.paddr + s.filesz then f[s.offset + (a - s.paddr)] else 0
  }

  /** after is before with exactly the given segments loaded. */
  ghost predicate Executed(before: Bytes, after: Bytes, f: Bytes, segs: seq<Segment>)
    requires |before| == |after| == TWO64 && forall s <- segs :: SegmentSound(s, |f|)
  {
    (forall s <- segs :: SegmentInRam(after, f, s)) &&
    forall a: nat {:trigger after[a]} :: a < TWO64 && (forall s <- segs :: !InPages(s, a)) ==> after[a] == before[a]
  }

  method MemSet(ram: array<u8>, dst: nat, n: nat)
    requires dst + n <= ram.Length
    modifies ram
    ensures forall a {:trigger ram[a]} :: 0 <= a < ram.Length ==> ram[a] == if dst <= a < dst + n then 0 else old(ram[a])
  {
    for i := 0 to n
      invariant forall a {:trigger ram[a]} :: 0 <= a < ram.Length ==> ram[a] == if dst <= a < dst + i then 0 else old(ram[a])
    {
      ram[dst + i] := 0;
    }
  }

  method MemCpy(ram: array<u8>, dst: nat, src: Bytes, from: nat, n: nat)
    requires dst + n <= ram.Length && from + n <= |src|
    modifies ram
    ensures forall a {:trigger ram[a]} :: 0 <= a < ram.Length ==>
      ram[a] == if dst <= a < dst + n then src[from + (a - dst)] else old(ram[a])
  {
    for i := 0 to n
      invariant forall a {:trigger ram[a]} :: 0 <= a < ram.Length ==>
        ram[a] == if dst <= a < dst + i then src[from + (a - dst)] else old(ram[a])
    {
      ram[dst + i] := src[from + i];
    }
  }

  method LoadSegment(ram: array<u8>, f: Bytes, s: Segment)
    requires ram.Length == TWO64 && SegmentSound(s, |f|)
    modifies ram
    ensures SegmentInRam(ram[..], f, s)
    ensures forall a {:trigger ram[a]} :: 0 <= a < ram.Length && !InPages(s, a) ==> ram[a] == old(ram[a])
  {
    MemSet(ram, s.pageBase, s.pageEnd - s.pageBase);
    MemCpy(ram, s.paddr, f, s.offset, s.filesz);
  }

  /** Loading one more segment keeps all earlier ones, because no two share a page. */
  lemma ExecutedStep(b: Bytes, m: Bytes, a: Bytes, f: Bytes, segs: seq<Segment>, i: nat)
    requires |b| == |m| == |a| == TWO64
    requires i < |segs| && PairwiseApart(segs) && forall s <- segs :: SegmentSound(s, |f|)
    requires Executed(b, m, f, segs[..i])
    requires SegmentInRam(a, f, segs[i])
    requires forall x: nat {:trigger a[x]} :: x < TWO64 && !InPages(segs[i], x) ==> a[x] == m[x]
    ensures Executed(b, a, f, segs[..i + 1])
  {
    assert segs[..i + 1] == segs[..i] + [segs[i]];
    forall s | s in segs[..i] ensures SegmentInRam(a, f, s) {
      var j :| 0 <= j < i && segs[j] == s;
      assert Apart(segs[j], segs[i]);
      assert SegmentInRam(m, f, s) && SegmentSound(s, |f|);
      forall x: nat | InPages(s, x)
        ensures a[x] == if s.paddr <= x < s.paddr + s.filesz then f[s.offset + (x - s.paddr)] else 0
      {
        assert !InPages(segs[i], x);
        assert a[x] == m[x];
      }
    }
    forall x: nat | x < TWO64 && (forall s <- segs[..i + 1] :: !InPages(s, x)) ensures a[x] == b[x] {
      assert segs[i] in segs[..i + 1];
      assert forall s <- segs[..i] :: s in segs[..i + 1];
      assert a[x] == m[x];
    }
  }

  /** The loading loop: stops at the first segment whose pages the firmware refuses. */
  method ExecutePlan(f: Bytes, ram: array<u8>, segs: seq<Segment>, grant: nat -> bool) returns (loaded: nat)
    requires ram.Length == TWO64 && PairwiseApart(segs) && forall s <- segs :: SegmentSound(s, |f|)
    modifies ram
    ensures loaded <= |segs| && (loaded < |segs| ==> !grant(loaded))
    ensures forall i: nat :: i < loaded ==> grant(i)
    ensures Executed(old(ram[..]), ram[..], f, segs[..loaded])
  {
    for i := 0 to |segs|
      invariant Executed(old(ram[..]), ram[..], f, segs[..i])
      invariant forall k: nat :: k < i ==> grant(k)
    {
      if !grant(i) { return i; }
      ghost var m := ram[..];
      LoadSegment(ram, f, segs[i]);
      ExecutedStep(old(ram[..]), m, ram[..], f, segs, i);
    }
    loaded := |segs|;
  }

  /**
   * load_kernel_elf: grant(i) is the firmware's answer to AllocatePages for segment i, and ram
   * is the physical address space. Memory is touched only for a well-formed file, and then it
   * ends up holding the loaded segments and is otherwise unchanged.
   */
  method LoadKernelElf(file: Bytes, ram: array<u8>, grant: nat -> bool) returns (out: LoadOutcome, plan: LoadPlan)
    requires |file| < TWO64 && ram.Length == TWO64
    modifies ram
    ensures out.Rejected? <==> !WellFormed(file)
    ensures out.Rejected? <==> !AcceptedBytes(file)
    ensures out.Rejected? ==> ram[..] == old(ram[..]) && Diagnosis(file, out.status) && ImageVerdict(file, out.status)
    ensures AcceptedBytes(file) ==> plan.entry == Value(file, 24, 8) && AllRead(plan.segs, file)
    ensures WellFormed(file) ==> IsPlanFor(plan, Phdrs(file), ParseEhdr(file).entry)
    ensures WellFormed(file) ==> forall s <- plan.segs :: SegmentSound(s, |file|)
    ensures out.Entry? ==> out.entry == ParseEhdr(file).entry
    ensures out.Entry? ==> Executed(old(ram[..]), ram[..], file, plan.segs)
    ensures out.Entry? ==> forall i: nat :: i < |plan.segs| ==> grant(i)
    ensures out.Occupied? ==> out.segment < |plan.segs| && !grant(out.segment) && forall i: nat :: i < out.segment ==> grant(i)
    ensures out.Occupied? ==> Executed(old(ram[..]), ram[..], file, plan.segs[..out.segment])
  {
    hide AcceptedBytes, AllRead, Value, WellFormed, IsPlanFor, ImageVerdict, Diagnosis, Executed, HeaderBytes, SegmentSound;
    hide PairwiseApart;
    var st;
    st, plan := ElfPlanLoad(file);
    AcceptedExact(file);
    if st != Ok { return Rejected(st), plan; }
    SoundPlan(file, plan);
    PlanExact(file, plan);
    var loaded := ExecutePlan(file, ram, plan.segs, grant);
    if loaded < |plan.segs| { return Occupied(loaded), plan; }
    assert plan.segs[..loaded] == plan.segs;
    out := Entry(plan.entry);
  }

  lemma SoundPlan(file: Bytes, plan: LoadPlan)
    requires WellFormed(file) && |file| < TWO64 && IsPlanFor(plan, Phdrs(file), ParseEhdr(file).entry)
    ensures PairwiseApart(plan.segs) && (forall s <- plan.segs :: SegmentSound(s, |file|))
    ensures plan.entry == ParseEhdr(file).entry
  {
    PlanSound(Phdrs(file), plan.entry, |file|);
  }

  function EntryByte(f: Bytes, s: Segment, entry: u64): u8
    requires SegmentSound(s, |f|) && HoldsEntry(s, entry)
  {
    f[s.offset + (entry - s.paddr)]
  }

  /** Memory holds the file's byte at the entry address. */
  ghost predicate EntryLoaded(ram: Bytes, file: Bytes, plan: LoadPlan)
    requires |ram| == TWO64
  {
    exists s ::
      s in plan.segs && SegmentSound(s, |file|) && HoldsEntry(s, plan.entry) &&
      ram[plan.entry] == EntryByte(file, s, plan.entry)
  }

  /** The first byte executed after the handoff is a byte of the file, in memory at the entry point. */
  lemma EntryByteLoaded(before: Bytes, after: Bytes, file: Bytes, plan: LoadPlan)
    requires |before| == |after| == TWO64 && WellFormed(file)
    requires IsPlanFor(plan, Phdrs(file), ParseEhdr(file).entry)
    requires forall s <- plan.segs :: SegmentSound(s, |file|)
    requires Executed(before, after, file, plan.segs)
    ensures EntryLoaded(after, file, plan)
  {
    var s :| s in plan.segs && HoldsEntry(s, plan.entry);
    assert SegmentInRam(after, file, s);
    assert InPages(s, plan.entry);
  }
}
