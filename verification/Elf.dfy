/** Validation of the kernel image and the load plan (bootloader/uefi/elf.c). */
module Elf {
  import opened Words
  import opened LittleEndian
  import opened Bags

  const EHDR_SIZE: nat := 64
  const PHDR_SIZE: nat := 56
  const ELF_MAGIC: u32 := 0x464C457F
  const PT_LOAD: u32 := 1
  const MAX_SEGMENTS: nat := 16
  const MAX_KERNEL_SPAN: nat := 256 * 1024 * 1024

  datatype Ehdr = Ehdr(
    magic: u32, cls: u8, data: u8, iversion: u8, typ: u16, machine: u16, version: u32,
    entry: u64, phoff: u64, ehsize: u16, phentsize: u16, phnum: u16)

  datatype Phdr = Phdr(
    typ: u32, flags: u32, offset: u64, vaddr: u64, paddr: u64, filesz: u64, memsz: u64, align: u64)

  datatype Segment = Segment(
    paddr: u64, pageBase: u64, pageEnd: u64, offset: u64, filesz: u64, memsz: u64, flags: u32)

  datatype LoadPlan = LoadPlan(entry: u64, physBase: u64, physEnd: u64, segs: seq<Segment>)

  datatype ElfStatus =
    | Ok | ErrTruncated | ErrMagic | ErrClass | ErrEndian | ErrVersion | ErrMachine | ErrType
    | ErrEhsize | ErrPhentsize | ErrPhdrBounds | ErrSegBounds | ErrSegSizes | ErrSegAlign
    | ErrSegVaddr | ErrSegFlags | ErrSegOverflow | ErrSegOverlap | ErrTooManySegs
    | ErrNoSegments | ErrTooBig | ErrEntry

  // ---- the on-disk structures ------------------------------------------------

  function ParseEhdr(f: Bytes): Ehdr
    requires |f| >= EHDR_SIZE
  {
    Ehdr(U32(f, 0), f[4], f[5], f[6], U16(f, 16), U16(f, 18), U32(f, 20),
         U64(f, 24), U64(f, 32), U16(f, 52), U16(f, 54), U16(f, 56))
  }

  function ParsePhdr(f: Bytes, at: nat): Phdr
    requires at + PHDR_SIZE <= |f|
  {
    Phdr(U32(f, at), U32(f, at + 4), U64(f, at + 8), U64(f, at + 16), U64(f, at + 24),
         U64(f, at + 32), U64(f, at + 40), U64(f, at + 48))
  }

  predicate TableInFile(f: Bytes) {
    |f| >= EHDR_SIZE && ParseEhdr(f).phoff + ParseEhdr(f).phnum * PHDR_SIZE <= |f|
  }

  function Phdrs(f: Bytes): (r: seq<Phdr>)
    requires TableInFile(f)
    ensures |r| == ParseEhdr(f).phnum
  {
    var eh := ParseEhdr(f);
    seq(eh.phnum, i requires 0 <= i < eh.phnum => ParsePhdr(f, eh.phoff + i * PHDR_SIZE))
  }

  // ---- what an acceptable image is ---------------------------------------------

  predicate HeaderOk(eh: Ehdr) {
    eh.magic == ELF_MAGIC && eh.cls == 2 && eh.data == 1 && eh.iversion == 1 && eh.version == 1 &&
    eh.machine == 62 && eh.typ == 2 && eh.ehsize == EHDR_SIZE && eh.phentsize == PHDR_SIZE &&
    eh.phnum != 0
  }

  predicate Writable(flags: u32) { flags / 2 % 2 == 1 }
  predicate Executable(flags: u32) { flags % 2 == 1 }

  /** Only R, W and X bits, and never W with X. */
  predicate FlagsOk(flags: u32) {
    flags <= 7 && !(Writable(flags) && Executable(flags))
  }

  /** p_align of 0 or 1, or a power of two that address and file offset agree modulo. */
  ghost predicate AlignOk(p: Phdr) {
    p.align <= 1 || exists k: nat :: IsPow2(p.align, k) && p.vaddr % p.align == p.offset % p.align
  }

  ghost predicate PolicyOk(p: Phdr) {
    p.filesz <= p.memsz && AlignOk(p) && p.vaddr == p.paddr &&
    FlagsOk(p.flags)
  }

  predicate IsLoaded(p: Phdr) { p.typ == PT_LOAD && p.memsz != 0 }

  function Loaded(phs: seq<Phdr>): (r: seq<Phdr>)
  {
    if |phs| == 0 then []
    else Loaded(phs[..|phs| - 1]) + if IsLoaded(phs[|phs| - 1]) then [phs[|phs| - 1]] else []
  }

  predicate InMemory(p: Phdr) { p.paddr + p.memsz + (PAGE - 1) < TWO64 }
  predicate InFile(p: Phdr, fsize: nat) { p.offset + p.filesz <= fsize }

  function SegmentOf(p: Phdr): Segment
    requires InMemory(p)
  {
    Segment(p.paddr, PageDown(p.paddr), PageUp(p.paddr + p.memsz), p.offset, p.filesz, p.memsz, p.flags)
  }

  function Segments(ps: seq<Phdr>): (r: seq<Segment>)
    requires forall p <- ps :: InMemory(p)
    ensures |r| == |ps| && forall i :: 0 <= i < |ps| ==> r[i] == SegmentOf(ps[i])
  {
    seq(|ps|, i requires 0 <= i < |ps| => SegmentOf(ps[i]))
  }

  predicate Apart(a: Segment, b: Segment) {
    a.pageEnd <= b.pageBase || b.pageEnd <= a.pageBase
  }

  ghost predicate PairwiseApart(s: seq<Segment>) {
    forall i, j :: 0 <= i < j < |s| ==> Apart(s[i], s[j])
  }

  ghost predicate SpanOk(s: seq<Segment>) {
    forall a, b :: a in s && b in s ==> a.pageEnd - b.pageBase <= MAX_KERNEL_SPAN
  }

  predicate HoldsEntry(s: Segment, entry: u64) {
    Executable(s.flags) && s.paddr <= entry < s.paddr + s.filesz
  }

  /** The program headers describe a kernel that can be loaded from a file of fsize bytes. */
  ghost predicate ImageOk(phs: seq<Phdr>, entry: u64, fsize: nat) {
    (forall p <- phs :: p.typ == PT_LOAD ==> PolicyOk(p)) &&
    (forall p <- Loaded(phs) :: InFile(p, fsize) && InMemory(p)) &&
    var segs := Segments(Loaded(phs));
    1 <= |segs| <= MAX_SEGMENTS && PairwiseApart(segs) && SpanOk(segs) &&
    exists s :: s in segs && HoldsEntry(s, entry)
  }

  ghost predicate WellFormed(f: Bytes) {
    |f| >= EHDR_SIZE && HeaderOk(ParseEhdr(f)) && TableInFile(f) &&
    ImageOk(Phdrs(f), ParseEhdr(f).entry, |f|)
  }

  /** plan is the load plan of an acceptable image. */
  ghost predicate IsPlanFor(plan: LoadPlan, phs: seq<Phdr>, entry: u64)
    requires forall p <- Loaded(phs) :: InMemory(p)
  {
    plan.entry == entry && plan.segs == Segments(Loaded(phs)) &&
    IsSpan(plan.physBase, plan.physEnd, plan.segs)
  }

  /** [lo, hi) is the smallest range around all pages of the segments. */
  ghost predicate IsSpan(lo: u64, hi: u64, segs: seq<Segment>) {
    (segs == [] ==> lo == TWO64 - 1 && hi == 0) &&
    (forall s <- segs :: lo <= s.pageBase && s.pageEnd <= hi) &&
    (segs != [] ==> exists s :: s in segs && s.pageBase == lo) &&
    (segs != [] ==> exists s :: s in segs && s.pageEnd == hi)
  }

  /** What each rejection of the ELF header says about it. */
  predicate HeaderDefect(eh: Ehdr, st: ElfStatus) {
    match st
    case ErrMagic => eh.magic != ELF_MAGIC
    case ErrClass => eh.cls != 2
    case ErrEndian => eh.data != 1
    case ErrVersion => eh.iversion != 1 || eh.version != 1
    case ErrMachine => eh.machine != 62
    case ErrType => eh.typ != 2
    case ErrEhsize => eh.ehsize != EHDR_SIZE
    case ErrPhentsize => eh.phentsize != PHDR_SIZE
    case ErrNoSegments => eh.phnum == 0
    case _ => false
  }

  /** What each rejection says about the file. */
  ghost predicate Diagnosis(f: Bytes, st: ElfStatus) {
    if |f| < EHDR_SIZE then st == ErrTruncated else
    var eh := ParseEhdr(f);
    match st
    case Ok => WellFormed(f)
    case ErrTruncated => false
    case ErrPhdrBounds => !TableInFile(f)
    case ErrNoSegments => eh.phnum == 0 || (TableInFile(f) && Loaded(Phdrs(f)) == [])
    case _ => HeaderDefect(eh, st) || (HeaderOk(eh) && TableInFile(f) && SegmentDiagnosis(Phdrs(f), eh.entry, |f|, st))
  }

  predicate Overlap(p: Phdr, q: Phdr) {
    InMemory(p) && InMemory(q) && !Apart(SegmentOf(p), SegmentOf(q))
  }

  predicate TooFar(p: Phdr, q: Phdr) {
    InMemory(p) && InMemory(q) && SegmentOf(p).pageEnd - SegmentOf(q).pageBase > MAX_KERNEL_SPAN
  }

  ghost predicate SegmentDiagnosis(phs: seq<Phdr>, entry: u64, fsize: nat, st: ElfStatus) {
    match st
    case ErrSegSizes => exists p :: p in phs && p.typ == PT_LOAD && p.filesz > p.memsz
    case ErrSegAlign => exists p :: p in phs && p.typ == PT_LOAD && !AlignOk(p)
    case ErrSegVaddr => exists p :: p in phs && p.typ == PT_LOAD && p.vaddr != p.paddr
    case ErrSegFlags => exists p :: p in phs && p.typ == PT_LOAD && !FlagsOk(p.flags)
    case ErrTooManySegs => |Loaded(phs)| > MAX_SEGMENTS
    case ErrSegOverflow => exists p :: p in Loaded(phs) && (p.offset + p.filesz >= TWO64 || !InMemory(p))
    case ErrSegBounds => exists p :: p in Loaded(phs) && !InFile(p, fsize)
    case ErrSegOverlap => exists i, j :: 0 <= i < j < |Loaded(phs)| && Overlap(Loaded(phs)[i], Loaded(phs)[j])
    case ErrTooBig => exists p, q :: p in Loaded(phs) && q in Loaded(phs) && TooFar(p, q)
    case ErrEntry => forall p <- Loaded(phs) :: InMemory(p) && !HoldsEntry(SegmentOf(p), entry)
    case _ => false
  }

  // ---- the exact status ----------------------------------------------------------------

  /** The policy test that a PT_LOAD header fails first. */
  ghost predicate PolicyStops(p: Phdr, st: ElfStatus) {
    match st
    case ErrSegSizes => p.filesz > p.memsz
    case ErrSegAlign => p.filesz <= p.memsz && !AlignOk(p)
    case ErrSegVaddr => p.filesz <= p.memsz && AlignOk(p) && p.vaddr != p.paddr
    case ErrSegFlags => p.filesz <= p.memsz && AlignOk(p) && p.vaddr == p.paddr && !FlagsOk(p.flags)
    case _ => false
  }

  /** Why one more header that takes memory cannot be planned behind those before it. */
  ghost predicate RangeStops(before: seq<Phdr>, p: Phdr, fsize: nat, st: ElfStatus) {
    match st
    case ErrTooManySegs => |before| == 16
    case ErrSegOverflow => |before| < 16 && (p.offset + p.filesz >= TWO64 || (InFile(p, fsize) && !InMemory(p)))
    case ErrSegBounds => |before| < 16 && p.offset + p.filesz < TWO64 && !InFile(p, fsize)
    case ErrSegOverlap => |before| < 16 && InFile(p, fsize) && exists q :: q in before && Overlap(q, p)
    case _ => false
  }

  /** Header i ends the planning with this status. */
  ghost predicate HeaderStops(phs: seq<Phdr>, i: nat, fsize: nat, st: ElfStatus)
    requires i < |phs|
  {
    var p := phs[i];
    p.typ == PT_LOAD &&
    (PolicyStops(p, st) || (PolicyOk(p) && p.memsz != 0 && RangeStops(Loaded(phs[..i]), p, fsize, st)))
  }

  /** The exact condition of each status behind the header. */
  ghost predicate PlanVerdict(phs: seq<Phdr>, entry: u64, fsize: nat, st: ElfStatus) {
    match st
    case Ok => ImageOk(phs, entry, fsize)
    case ErrNoSegments => PrefixOk(phs, |phs|, fsize) && Loaded(phs) == []
    case ErrTooBig =>
      PrefixOk(phs, |phs|, fsize) && Loaded(phs) != [] && exists p, q :: p in Loaded(phs) && q in Loaded(phs) && TooFar(p, q)
    case ErrEntry =>
      PrefixOk(phs, |phs|, fsize) && Loaded(phs) != [] &&
      (forall p, q :: p in Loaded(phs) && q in Loaded(phs) ==> !TooFar(p, q)) &&
      (forall p <- Loaded(phs) :: InMemory(p) && !HoldsEntry(SegmentOf(p), entry))
    case _ => exists i :: 0 <= i < |phs| && PrefixOk(phs, i, fsize) && HeaderStops(phs, i, fsize, st)
  }

  /** The place of a status among the tests of the ELF header. */
  function TestNo(st: ElfStatus): nat {
    match st
    case ErrMagic => 1
    case ErrClass => 2
    case ErrEndian => 3
    case ErrVersion => 4
    case ErrMachine => 5
    case ErrType => 6
    case ErrEhsize => 7
    case ErrPhentsize => 8
    case ErrNoSegments => 9
    case _ => 0
  }

  /** The status of the first test that the header fails. */
  ghost predicate FirstDefect(eh: Ehdr, st: ElfStatus) {
    HeaderDefect(eh, st) && forall s :: TestNo(s) < TestNo(st) ==> !HeaderDefect(eh, s)
  }

  /** The exact condition of each status. */
  ghost predicate ImageVerdict(f: Bytes, st: ElfStatus) {
    if |f| < 64 then st == ErrTruncated
    else if !HeaderOk(ParseEhdr(f)) then FirstDefect(ParseEhdr(f), st)
    else if !TableInFile(f) then st == ErrPhdrBounds
    else PlanVerdict(Phdrs(f), ParseEhdr(f).entry, |f|, st)
  }

  // ---- filtering the headers ---------------------------------------------------------

  lemma {:induction false} LoadedPrefix(phs: seq<Phdr>, i: nat)
    requires i <= |phs|
    ensures Loaded(phs[..i]) <= Loaded(phs)
    decreases |phs|
  {
    if i < |phs| {
      assert phs[..|phs| - 1][..i] == phs[..i];
      LoadedPrefix(phs[..|phs| - 1], i);
    } else {
      assert phs[..i] == phs;
    }
  }

  lemma LoadedStep(phs: seq<Phdr>, i: nat)
    requires i < |phs|
    ensures Loaded(phs[..i + 1]) == Loaded(phs[..i]) + if IsLoaded(phs[i]) then [phs[i]] else []
    ensures Loaded(phs[..i + 1]) <= Loaded(phs)
  {
    assert phs[..i + 1][..i] == phs[..i];
    LoadedPrefix(phs, i + 1);
  }

  lemma {:induction false} LoadedCount(phs: seq<Phdr>, p: Phdr)
    ensures multiset(Loaded(phs))[p] == if IsLoaded(p) then multiset(phs)[p] else 0
  {
    if |phs| > 0 {
      var rest := phs[..|phs| - 1];
      assert phs == rest + [phs[|phs| - 1]];
      LoadedCount(rest, p);
    }
  }

  // ---- the planner ---------------------------------------------------------------------

  /** The alignment test as the source computes it, with a wrapping subtraction and masks. */
  predicate AlignTest(p: Phdr) {
    p.align > 1 && (!PowerOfTwo(p.align) || BitAnd(WrapSub(p.vaddr, p.offset), p.align - 1) != 0)
  }

  lemma AlignTestExact(p: Phdr)
    ensures AlignTest(p) <==> !AlignOk(p)
  {
    PowerOfTwoExact(p.align);
    if p.align > 1 {
      if k: nat :| IsPow2(p.align, k) {
        WrapCongruent(p.vaddr, p.offset, k);
      }
    }
  }

  /** The segment one loadable header contributes, or the error that rejects it. */
  method PlanSegment(p: Phdr, fsize: u64) returns (st: ElfStatus, seg: Segment)
    ensures st == Ok <==> InFile(p, fsize) && InMemory(p)
    ensures st == Ok ==> seg == SegmentOf(p)
    ensures st == Ok || st == ErrSegOverflow || st == ErrSegBounds
    ensures st == ErrSegOverflow <==> p.offset + p.filesz >= TWO64 || (InFile(p, fsize) && !InMemory(p))
    ensures st == ErrSegBounds <==> p.offset + p.filesz < TWO64 && !InFile(p, fsize)
  {
    seg := Segment(0, 0, 0, 0, 0, 0, 0);
    var fileEnd := AddOk(p.offset, p.filesz);
    if fileEnd.None? { return ErrSegOverflow, seg; }
    if fileEnd.value > fsize { return ErrSegBounds, seg; }
    var memEnd := AddOk(p.paddr, p.memsz);
    if memEnd.None? { return ErrSegOverflow, seg; }
    var rounded := AddOk(memEnd.value, PAGE - 1);
    if rounded.None? { return ErrSegOverflow, seg; }
    var pageEnd := PageDown(rounded.value);
    return Ok, Segment(p.paddr, PageDown(p.paddr), pageEnd, p.offset, p.filesz, p.memsz, p.flags);
  }

  /** Everything the first i headers must satisfy for planning to go on. */
  ghost predicate PrefixOk(phs: seq<Phdr>, i: nat, fsize: nat)
    requires i <= |phs|
  {
    (forall k :: 0 <= k < i && phs[k].typ == PT_LOAD ==> PolicyOk(phs[k])) &&
    (forall p <- Loaded(phs[..i]) :: InFile(p, fsize) && InMemory(p)) &&
    |Loaded(phs[..i])| <= MAX_SEGMENTS &&
    PairwiseApart(Segments(Loaded(phs[..i])))
  }

  method OverlapsAny(seg: Segment, segs: seq<Segment>) returns (found: bool)
    ensures found <==> exists j :: 0 <= j < |segs| && !Apart(segs[j], seg)
  {
    for j := 0 to |segs|
      invariant forall k :: 0 <= k < j ==> Apart(segs[k], seg)
    {
      if seg.pageBase < segs[j].pageEnd && segs[j].pageBase < seg.pageEnd {
        return true;
      }
    }
    return false;
  }

  /** The policy tests on one PT_LOAD header, in the source's order. */
  method CheckPolicy(p: Phdr) returns (st: ElfStatus)
    ensures st == Ok <==> PolicyOk(p)
    ensures st in {Ok, ErrSegSizes, ErrSegAlign, ErrSegVaddr, ErrSegFlags}
    ensures st != Ok ==> PolicyStops(p, st)
  {
    AlignTestExact(p);
    if p.filesz > p.memsz { return ErrSegSizes; }
    if AlignTest(p) { return ErrSegAlign; }
    if p.vaddr != p.paddr { return ErrSegVaddr; }
    if p.flags > 7 || (Writable(p.flags) && Executable(p.flags)) { return ErrSegFlags; }
    return Ok;
  }

  /** The state of the planning loop after the first i headers. */
  ghost predicate Planned(phs: seq<Phdr>, i: nat, fsize: nat, segs: seq<Segment>, lo: u64, hi: u64)
    requires i <= |phs|
  {
    PrefixOk(phs, i, fsize) && segs == Segments(Loaded(phs[..i])) && IsSpan(lo, hi, segs)
  }

  method PlanSegments(phs: seq<Phdr>, ghost entry: u64, fsize: u64)
    returns (st: ElfStatus, segs: seq<Segment>, lo: u64, hi: u64)
    ensures st == Ok ==> Planned(phs, |phs|, fsize, segs, lo, hi)
    ensures st != Ok ==> SegmentDiagnosis(phs, entry, fsize, st) && PlanVerdict(phs, entry, fsize, st)
    ensures st != ErrEntry && st != ErrTooBig
  {
    hide SegmentDiagnosis, PolicyOk, AlignOk, FlagsOk, PolicyStops, PlanVerdict, PrefixOk, IsSpan;
    st, segs, lo, hi := Ok, [], TWO64 - 1, 0;
    NothingPlanned(phs, fsize);
    for i := 0 to |phs|
      invariant st == Ok
      invariant Planned(phs, i, fsize, segs, lo, hi)
    {
      var p := phs[i];
      if p.typ == PT_LOAD {
        st := CheckPolicy(p);
        if st != Ok {
          PolicyRejects(phs, entry, fsize, i, st);
          return;
        }
        if p.memsz != 0 {
          st, segs, lo, hi := AddHeader(phs, i, entry, fsize, segs, lo, hi);
          if st != Ok { return; }
        } else {
          SkipHeader(phs, i, fsize, segs, lo, hi);
        }
      } else {
        SkipHeader(phs, i, fsize, segs, lo, hi);
      }
    }
  }

  lemma NothingPlanned(phs: seq<Phdr>, fsize: u64)
    ensures Planned(phs, 0, fsize, [], TWO64 - 1, 0)
  {
  }

  /** A header that is not loaded changes nothing. */
  lemma SkipHeader(phs: seq<Phdr>, i: nat, fsize: u64, segs: seq<Segment>, lo: u64, hi: u64)
    requires i < |phs| && !IsLoaded(phs[i]) && (phs[i].typ == PT_LOAD ==> PolicyOk(phs[i]))
    requires Planned(phs, i, fsize, segs, lo, hi)
    ensures Planned(phs, i + 1, fsize, segs, lo, hi)
  {
    LoadedStep(phs, i);
  }

  lemma PolicyRejects(phs: seq<Phdr>, entry: u64, fsize: u64, i: nat, st: ElfStatus)
    requires i < |phs| && phs[i].typ == PT_LOAD && PolicyStops(phs[i], st) && PrefixOk(phs, i, fsize)
    ensures SegmentDiagnosis(phs, entry, fsize, st) && PlanVerdict(phs, entry, fsize, st)
  {
    assert HeaderStops(phs, i, fsize, st);
    assert phs[i] in phs;
  }

  /** One non-empty PT_LOAD header: count limit, ranges, overlap, running span. */
  method AddHeader(phs: seq<Phdr>, i: nat, ghost entry: u64, fsize: u64, segs: seq<Segment>, lo: u64, hi: u64)
    returns (st: ElfStatus, segs': seq<Segment>, lo': u64, hi': u64)
    requires i < |phs| && IsLoaded(phs[i]) && PolicyOk(phs[i])
    requires Planned(phs, i, fsize, segs, lo, hi)
    ensures st == Ok ==> Planned(phs, i + 1, fsize, segs', lo', hi')
    ensures st != Ok ==> SegmentDiagnosis(phs, entry, fsize, st) && PlanVerdict(phs, entry, fsize, st)
    ensures st != ErrEntry && st != ErrTooBig
  {
    hide SegmentDiagnosis, PlanVerdict, PolicyOk, IsSpan;
    segs', lo', hi' := segs, lo, hi;
    var p := phs[i];
    if |segs| == MAX_SEGMENTS {
      RangeRejects(phs, entry, fsize, i, ErrTooManySegs);
      return ErrTooManySegs, segs, lo, hi;
    }
    var seg;
    st, seg := PlanSegment(p, fsize);
    if st != Ok {
      RangeRejects(phs, entry, fsize, i, st);
      return;
    }
    var clash := OverlapsAny(seg, segs);
    if clash {
      ghost var j :| 0 <= j < |segs| && !Apart(segs[j], seg);
      assert Loaded(phs[..i])[j] in Loaded(phs[..i]) && Overlap(Loaded(phs[..i])[j], p);
      RangeRejects(phs, entry, fsize, i, ErrSegOverlap);
      return ErrSegOverlap, segs, lo, hi;
    }
    if seg.pageBase < lo { lo' := seg.pageBase; }
    if seg.pageEnd > hi { hi' := seg.pageEnd; }
    segs' := segs + [seg];
    SpanStep(segs, lo, hi, seg);
    PrefixStep(phs, i, fsize, segs);
  }

  lemma PrefixStep(phs: seq<Phdr>, i: nat, fsize: nat, segs: seq<Segment>)
    requires i < |phs| && PrefixOk(phs, i, fsize) && segs == Segments(Loaded(phs[..i]))
    requires IsLoaded(phs[i]) && PolicyOk(phs[i]) && InFile(phs[i], fsize) && InMemory(phs[i])
    requires |segs| < MAX_SEGMENTS
    requires forall j :: 0 <= j < |segs| ==> Apart(segs[j], SegmentOf(phs[i]))
    ensures PrefixOk(phs, i + 1, fsize) && segs + [SegmentOf(phs[i])] == Segments(Loaded(phs[..i + 1]))
  {
    LoadedStep(phs, i);
    var ps := Loaded(phs[..i + 1]);
    assert ps == Loaded(phs[..i]) + [phs[i]];
    assert Segments(ps) == segs + [SegmentOf(phs[i])];
  }

  lemma RangeRejects(phs: seq<Phdr>, entry: u64, fsize: u64, i: nat, st: ElfStatus)
    requires i < |phs| && IsLoaded(phs[i]) && PolicyOk(phs[i]) && PrefixOk(phs, i, fsize)
    requires RangeStops(Loaded(phs[..i]), phs[i], fsize, st)
    ensures SegmentDiagnosis(phs, entry, fsize, st) && PlanVerdict(phs, entry, fsize, st)
  {
    assert HeaderStops(phs, i, fsize, st);
    LoadedStep(phs, i);
    var n := |Loaded(phs[..i])|;
    assert Loaded(phs)[n] == phs[i] && phs[i] in Loaded(phs);
    if st == ErrSegOverlap {
      var q :| q in Loaded(phs[..i]) && Overlap(q, phs[i]);
      var j :| 0 <= j < n && Loaded(phs[..i])[j] == q;
      assert Overlap(Loaded(phs)[j], Loaded(phs)[n]);
    }
  }

  lemma SpanStep(segs: seq<Segment>, lo: u64, hi: u64, seg: Segment)
    requires IsSpan(lo, hi, segs)
    requires segs != [] || (seg.pageBase < TWO64 - 1 && seg.pageEnd > 0)
    ensures IsSpan(if seg.pageBase < lo then seg.pageBase else lo, if seg.pageEnd > hi then seg.pageEnd else hi, segs + [seg])
  {
    var t := segs + [seg];
    assert seg in t;
    assert forall s <- segs :: s in t;
  }

  method CheckHeader(eh: Ehdr) returns (st: ElfStatus)
    ensures st == Ok <==> HeaderOk(eh)
    ensures st != Ok ==> HeaderDefect(eh, st) && FirstDefect(eh, st)
  {
    if eh.magic != ELF_MAGIC { return ErrMagic; }
    if eh.cls != 2 { return ErrClass; }
    if eh.data != 1 { return ErrEndian; }
    if eh.iversion != 1 || eh.version != 1 { return ErrVersion; }
    if eh.machine != 62 { return ErrMachine; }
    if eh.typ != 2 { return ErrType; }
    if eh.ehsize != EHDR_SIZE { return ErrEhsize; }
    if eh.phentsize != PHDR_SIZE { return ErrPhentsize; }
    if eh.phnum == 0 { return ErrNoSegments; }
    return Ok;
  }

  /** The entry must lie in file-backed executable bytes; the repeated overflow test cannot fail. */
  method FindEntry(segs: seq<Segment>, entry: u64) returns (st: ElfStatus)
    requires forall s <- segs :: s.paddr + s.filesz < TWO64
    ensures st == Ok || st == ErrEntry
    ensures st == Ok <==> exists s :: s in segs && HoldsEntry(s, entry)
  {
    for i := 0 to |segs|
      invariant forall k :: 0 <= k < i ==> !HoldsEntry(segs[k], entry)
    {
      var fileEnd := AddOk(segs[i].paddr, segs[i].filesz);
      if fileEnd.None? {
        return ErrSegOverflow;
      }
      if Executable(segs[i].flags) && segs[i].paddr <= entry && entry < fileEnd.value {
        assert segs[i] in segs && HoldsEntry(segs[i], entry);
        return Ok;
      }
    }
    return ErrEntry;
  }

  /** The part of elf_plan_load after the header: segments, span and entry. */
  method PlanImage(phs: seq<Phdr>, entry: u64, fsize: u64) returns (st: ElfStatus, plan: LoadPlan)
    ensures st == Ok <==> ImageOk(phs, entry, fsize)
    ensures st == Ok ==> IsPlanFor(plan, phs, entry)
    ensures st == Ok || (st == ErrNoSegments && Loaded(phs) == []) || SegmentDiagnosis(phs, entry, fsize, st)
    ensures PlanVerdict(phs, entry, fsize, st)
  {
    var segs, lo, hi;
    st, segs, lo, hi := PlanSegments(phs, entry, fsize);
    plan := LoadPlan(entry, lo, hi, segs);
    if st != Ok {
      SegmentRejects(phs, entry, fsize, st);
      return;
    }
    assert phs[..|phs|] == phs;
    if segs == [] { return ErrNoSegments, plan; }
    if hi - lo > MAX_KERNEL_SPAN {
      SpanTooBig(phs, segs, lo, hi);
      SegmentRejects(phs, entry, fsize, ErrTooBig);
      return ErrTooBig, plan;
    }
    assert forall p <- Loaded(phs) :: InMemory(p);
    BackedFits(phs, segs, fsize);
    st := FindEntry(segs, entry);
    if st == Ok {
      Accepted(phs, segs, lo, hi, entry, fsize);
    } else {
      EntryMissing(Loaded(phs), entry);
      NoneTooFar(phs, segs, lo, hi);
      SegmentRejects(phs, entry, fsize, ErrEntry);
    }
  }

  lemma BackedFits(phs: seq<Phdr>, segs: seq<Segment>, fsize: nat)
    requires PrefixOk(phs, |phs|, fsize) && phs[..|phs|] == phs && segs == Segments(Loaded(phs))
    ensures forall s <- segs :: s.paddr + s.filesz < TWO64
  {
    LoadedAre(phs);
  }

  lemma Accepted(phs: seq<Phdr>, segs: seq<Segment>, lo: u64, hi: u64, entry: u64, fsize: nat)
    requires PrefixOk(phs, |phs|, fsize) && phs[..|phs|] == phs
    requires segs == Segments(Loaded(phs)) && IsSpan(lo, hi, segs)
    requires segs != [] && hi - lo <= MAX_KERNEL_SPAN
    requires exists s :: s in segs && HoldsEntry(s, entry)
    ensures ImageOk(phs, entry, fsize)
  {
    SpanExact(segs, lo, hi);
  }

  /**
   * elf_plan_load: accepts exactly the well-formed files, plans exactly their segments, and
   * every rejection names a real defect.
   */
  method ElfPlanLoad(file: Bytes) returns (st: ElfStatus, plan: LoadPlan)
    requires |file| < TWO64
    ensures st == Ok <==> WellFormed(file)
    ensures st == Ok ==> IsPlanFor(plan, Phdrs(file), ParseEhdr(file).entry)
    ensures Diagnosis(file, st) && ImageVerdict(file, st)
  {
    plan := LoadPlan(0, TWO64 - 1, 0, []);
    if |file| < EHDR_SIZE { return ErrTruncated, plan; }
    var eh := ParseEhdr(file);
    st := CheckHeader(eh);
    if st != Ok { return; }
    var phtEnd := AddOk(eh.phoff, eh.phnum * PHDR_SIZE);
    if phtEnd.None? || phtEnd.value > |file| { return ErrPhdrBounds, plan; }
    st, plan := PlanImage(Phdrs(file), eh.entry, |file|);
  }

  lemma SpanExact(segs: seq<Segment>, lo: u64, hi: u64)
    requires segs != [] && IsSpan(lo, hi, segs)
    ensures SpanOk(segs) <==> hi - lo <= MAX_KERNEL_SPAN
  {
    var a :| a in segs && a.pageEnd == hi;
    var b :| b in segs && b.pageBase == lo;
    if SpanOk(segs) { assert a.pageEnd - b.pageBase <= MAX_KERNEL_SPAN; }
  }

  lemma SpanTooBig(phs: seq<Phdr>, segs: seq<Segment>, lo: u64, hi: u64)
    requires forall p <- Loaded(phs) :: InMemory(p)
    requires segs != [] && segs == Segments(Loaded(phs)) && IsSpan(lo, hi, segs) && hi - lo > MAX_KERNEL_SPAN
    ensures exists p, q :: p in Loaded(phs) && q in Loaded(phs) && TooFar(p, q)
  {
    var ps := Loaded(phs);
    var i :| 0 <= i < |segs| && segs[i].pageEnd == hi;
    var j :| 0 <= j < |segs| && segs[j].pageBase == lo;
    assert ps[i] in ps && ps[j] in ps && TooFar(ps[i], ps[j]);
  }

  lemma NoneTooFar(phs: seq<Phdr>, segs: seq<Segment>, lo: u64, hi: u64)
    requires forall p <- Loaded(phs) :: InMemory(p)
    requires segs == Segments(Loaded(phs)) && IsSpan(lo, hi, segs) && hi - lo <= MAX_KERNEL_SPAN
    ensures forall p, q :: p in Loaded(phs) && q in Loaded(phs) ==> !TooFar(p, q)
  {
    forall p, q | p in Loaded(phs) && q in Loaded(phs) ensures !TooFar(p, q) {
      SegmentIn(Loaded(phs), p);
      SegmentIn(Loaded(phs), q);
    }
  }

  lemma EntryMissing(ps: seq<Phdr>, entry: u64)
    requires forall p <- ps :: InMemory(p)
    requires !exists s :: s in Segments(ps) && HoldsEntry(s, entry)
    ensures forall p <- ps :: !HoldsEntry(SegmentOf(p), entry)
  {
    forall p | p in ps ensures !HoldsEntry(SegmentOf(p), entry) {
      var i :| 0 <= i < |ps| && ps[i] == p;
      assert Segments(ps)[i] in Segments(ps);
    }
  }

  /** A diagnosed defect is never present in an acceptable image. */
  lemma SegmentRejects(phs: seq<Phdr>, entry: u64, fsize: nat, st: ElfStatus)
    requires SegmentDiagnosis(phs, entry, fsize, st) && fsize < TWO64
    ensures !ImageOk(phs, entry, fsize)
  {
    LoadedAre(phs);
    if forall p <- Loaded(phs) :: InMemory(p) {
      forall p | p in Loaded(phs) ensures SegmentOf(p) in Segments(Loaded(phs)) {
        SegmentIn(Loaded(phs), p);
      }
    }
  }

  lemma SegmentIn(ps: seq<Phdr>, p: Phdr)
    requires p in ps && forall q <- ps :: InMemory(q)
    ensures SegmentOf(p) in Segments(ps)
  {
    var i :| 0 <= i < |ps| && ps[i] == p;
    assert Segments(ps)[i] == SegmentOf(p);
  }

  lemma {:induction false} LoadedAre(phs: seq<Phdr>)
    ensures forall p :: p in Loaded(phs) <==> p in phs && IsLoaded(p)
  {
    if |phs| > 0 {
      LoadedAre(phs[..|phs| - 1]);
      assert phs == phs[..|phs| - 1] + [phs[|phs| - 1]];
    }
  }

  // ---- truncation and extension ----------------------------------------------------------

  /** The first cut bytes hold everything that loading reads. */
  ghost predicate Needs(f: Bytes, cut: nat)
    requires TableInFile(f)
  {
    EHDR_SIZE <= cut && ParseEhdr(f).phoff + ParseEhdr(f).phnum * PHDR_SIZE <= cut &&
    forall p <- Loaded(Phdrs(f)) :: InFile(p, cut)
  }

  lemma SameHeader(f: Bytes, cut: nat)
    requires EHDR_SIZE <= cut <= |f|
    ensures ParseEhdr(f[..cut]) == ParseEhdr(f)
  {
    hide U16, U32, U64;
    FieldOfPrefix(f, cut, 0, 4); FieldOfPrefix(f, cut, 16, 2); FieldOfPrefix(f, cut, 18, 2);
    FieldOfPrefix(f, cut, 20, 4); FieldOfPrefix(f, cut, 24, 8); FieldOfPrefix(f, cut, 32, 8);
    FieldOfPrefix(f, cut, 52, 2); FieldOfPrefix(f, cut, 54, 2); FieldOfPrefix(f, cut, 56, 2);
  }

  lemma FieldOfPrefix(f: Bytes, cut: nat, o: nat, n: nat)
    requires o + n <= cut <= |f|
    ensures n == 2 ==> U16(f[..cut], o) == U16(f, o)
    ensures n == 4 ==> U32(f[..cut], o) == U32(f, o)
    ensures n == 8 ==> U64(f[..cut], o) == U64(f, o)
  {
    assert f[..cut][o..o + n] == f[o..o + n];
    SameField(f[..cut], o, f, o, n);
  }

  lemma SamePhdr(f: Bytes, cut: nat, at: nat)
    requires at + PHDR_SIZE <= cut <= |f|
    ensures ParsePhdr(f[..cut], at) == ParsePhdr(f, at)
  {
    hide U16, U32, U64;
    FieldOfPrefix(f, cut, at, 4); FieldOfPrefix(f, cut, at + 4, 4); FieldOfPrefix(f, cut, at + 8, 8);
    FieldOfPrefix(f, cut, at + 16, 8); FieldOfPrefix(f, cut, at + 24, 8); FieldOfPrefix(f, cut, at + 32, 8);
    FieldOfPrefix(f, cut, at + 40, 8); FieldOfPrefix(f, cut, at + 48, 8);
  }

  lemma SamePhdrs(f: Bytes, cut: nat)
    requires EHDR_SIZE <= cut <= |f| && TableInFile(f[..cut])
    ensures TableInFile(f) && Phdrs(f[..cut]) == Phdrs(f) && ParseEhdr(f[..cut]) == ParseEhdr(f)
  {
    SameHeader(f, cut);
    var eh := ParseEhdr(f);
    forall i | 0 <= i < eh.phnum ensures Phdrs(f[..cut])[i] == Phdrs(f)[i] {
      SamePhdr(f, cut, eh.phoff + i * PHDR_SIZE);
    }
  }

  /**
   * A prefix is accepted exactly when the whole file is and the cut falls behind every header
   * and every planned byte; the plan is then the same.
   */
  lemma PrefixAccepted(f: Bytes, cut: nat)
    requires cut <= |f| < TWO64
    ensures WellFormed(f[..cut]) <==> WellFormed(f) && Needs(f, cut)
    ensures WellFormed(f[..cut]) ==> Phdrs(f[..cut]) == Phdrs(f) && ParseEhdr(f[..cut]).entry == ParseEhdr(f).entry
  {
    if EHDR_SIZE <= cut {
      SameHeader(f, cut);
      if TableInFile(f[..cut]) {
        SamePhdrs(f, cut);
      }
    }
  }

  // ---- the order of the program headers -----------------------------------------------------

  /** Disjointness of the planned segments, as a relation between headers. */
  lemma ApartAsRelation(ps: seq<Phdr>)
    requires forall p <- ps :: InMemory(p)
    ensures PairwiseApart(Segments(ps)) <==> Pairwise(ps, (p, q) => !Overlap(p, q))
    ensures Symmetric((p, q) => !Overlap(p, q))
  {
    var r := (p, q) => !Overlap(p, q);
    assert forall p, q :: r(p, q) ==> r(q, p);
    var segs := Segments(ps);
    if PairwiseApart(segs) {
      forall i, j | 0 <= i < j < |ps| ensures r(ps[i], ps[j]) { assert Apart(segs[i], segs[j]); }
    }
    if Pairwise(ps, r) {
      forall i, j | 0 <= i < j < |segs| ensures Apart(segs[i], segs[j]) { assert r(ps[i], ps[j]); }
    }
  }

  /** Acceptance does not depend on the order of the program headers. */
  lemma OrderIrrelevant(phs: seq<Phdr>, qhs: seq<Phdr>, entry: u64, fsize: nat)
    requires multiset(phs) == multiset(qhs)
    ensures ImageOk(phs, entry, fsize) <==> ImageOk(qhs, entry, fsize)
    ensures multiset(Loaded(phs)) == multiset(Loaded(qhs))
  {
    forall p ensures multiset(Loaded(phs))[p] == multiset(Loaded(qhs))[p] {
      LoadedCount(phs, p);
      LoadedCount(qhs, p);
    }
    assert multiset(Loaded(phs)) == multiset(Loaded(qhs));
    if ImageOk(phs, entry, fsize) { OrderKeeps(phs, qhs, entry, fsize); }
    if ImageOk(qhs, entry, fsize) { OrderKeeps(qhs, phs, entry, fsize); }
  }

  lemma OrderKeeps(phs: seq<Phdr>, qhs: seq<Phdr>, entry: u64, fsize: nat)
    requires multiset(phs) == multiset(qhs) && multiset(Loaded(phs)) == multiset(Loaded(qhs))
    requires ImageOk(phs, entry, fsize)
    ensures ImageOk(qhs, entry, fsize)
  {
    var ps, qs := Loaded(phs), Loaded(qhs);
    assert forall p :: p in qhs <==> p in multiset(qhs);
    assert forall p :: p in phs <==> p in multiset(phs);
    assert forall p :: p in qs <==> p in multiset(qs);
    assert forall p :: p in ps <==> p in multiset(ps);
    ApartAsRelation(ps);
    ApartAsRelation(qs);
    PairwiseAsBag(ps, (p, q) => !Overlap(p, q));
    PairwiseAsBag(qs, (p, q) => !Overlap(p, q));
    assert |ps| == |multiset(ps)| == |qs|;
    SameSegments(ps, qs);
  }

  lemma SameSegments(ps: seq<Phdr>, qs: seq<Phdr>)
    requires forall p :: p in ps <==> p in qs
    requires forall p <- ps :: InMemory(p)
    ensures forall s :: s in Segments(ps) <==> s in Segments(qs)
  {
    forall s ensures s in Segments(ps) <==> s in Segments(qs) {
      if s in Segments(ps) {
        var i :| 0 <= i < |ps| && Segments(ps)[i] == s;
        assert ps[i] in qs;
        SegmentIn(qs, ps[i]);
      }
      if s in Segments(qs) {
        var i :| 0 <= i < |qs| && Segments(qs)[i] == s;
        assert qs[i] in ps;
        SegmentIn(ps, qs[i]);
      }
    }
  }

  // ---- what a plan promises to the code that executes it -----------------------------------

  /** Page-aligned, non-empty, holding the segment's bytes, and copied from inside the file. */
  ghost predicate SegmentSound(s: Segment, fsize: nat) {
    s.pageBase % PAGE == 0 && s.pageEnd % PAGE == 0 &&
    s.pageBase <= s.paddr && s.filesz <= s.memsz && 0 < s.memsz && s.paddr + s.memsz <= s.pageEnd &&
    s.offset + s.filesz <= fsize
  }

  lemma PlanSound(phs: seq<Phdr>, entry: u64, fsize: nat)
    requires ImageOk(phs, entry, fsize)
    ensures forall s <- Segments(Loaded(phs)) :: SegmentSound(s, fsize)
  {
    LoadedAre(phs);
    var ps := Loaded(phs);
    forall s | s in Segments(ps) ensures SegmentSound(s, fsize) {
      var i :| 0 <= i < |ps| && Segments(ps)[i] == s;
      assert ps[i] in ps && PolicyOk(ps[i]);
    }
  }
}
