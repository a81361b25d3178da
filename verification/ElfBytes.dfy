/** The kernel image byte by byte: where each field lies (System V gABI, ELF-64) and what its bytes must be. */
module ElfBytes {
  import opened Words
  import opened LittleEndian
  import opened Bags
  import opened Elf

  // ---- fields ---------------------------------------------------------------------------------

  /** Magic, 64-bit, little-endian, versions, executable for x86-64, header sizes, and headers in the file. */
  predicate HeaderBytes(f: Bytes) {
    |f| >= 64 && f[0] == 0x7F && f[1] == 0x45 && f[2] == 0x4C && f[3] == 0x46 && f[4] == 2 && f[5] == 1 && f[6] == 1 &&
    Value(f, 16, 2) == 2 && Value(f, 18, 2) == 62 && Value(f, 20, 4) == 1 && Value(f, 52, 2) == 64 && Value(f, 54, 2) == 56 &&
    Value(f, 56, 2) != 0 && Value(f, 32, 8) + 56 * Value(f, 56, 2) <= |f|
  }

  /** The number of program headers. */
  function Count(f: Bytes): nat
    requires HeaderBytes(f)
  {
    Value(f, 56, 2)
  }

  /** The first byte of program header i. */
  function HeaderAt(f: Bytes, i: nat): (h: nat)
    requires HeaderBytes(f) && i < Count(f)
    ensures h + 56 <= |f|
  {
    Value(f, 32, 8) + 56 * i
  }

  function TypeAt(f: Bytes, h: nat): nat requires h + 56 <= |f| { Value(f, h, 4) }
  function FlagsAt(f: Bytes, h: nat): nat requires h + 56 <= |f| { Value(f, h + 4, 4) }
  function OffsetAt(f: Bytes, h: nat): nat requires h + 56 <= |f| { Value(f, h + 8, 8) }
  function VaddrAt(f: Bytes, h: nat): nat requires h + 56 <= |f| { Value(f, h + 16, 8) }
  function PaddrAt(f: Bytes, h: nat): nat requires h + 56 <= |f| { Value(f, h + 24, 8) }
  function FileszAt(f: Bytes, h: nat): nat requires h + 56 <= |f| { Value(f, h + 32, 8) }
  function MemszAt(f: Bytes, h: nat): nat requires h + 56 <= |f| { Value(f, h + 40, 8) }
  function AlignAt(f: Bytes, h: nat): nat requires h + 56 <= |f| { Value(f, h + 48, 8) }

  // ---- what is acceptable -------------------------------------------------------------------------

  /** A PT_LOAD header keeps sizes, alignment, identity mapping and permissions in order. */
  ghost predicate PolicyAt(f: Bytes, h: nat)
    requires h + 56 <= |f|
  {
    FileszAt(f, h) <= MemszAt(f, h) && VaddrAt(f, h) == PaddrAt(f, h) && FlagsAt(f, h) in {0, 1, 2, 4, 5, 6} &&
    (AlignAt(f, h) <= 1 ||
     exists k: nat :: IsPow2(AlignAt(f, h), k) && VaddrAt(f, h) % AlignAt(f, h) == OffsetAt(f, h) % AlignAt(f, h))
  }

  /** The header takes memory. */
  predicate LoadsAt(f: Bytes, h: nat)
    requires h + 56 <= |f|
  {
    TypeAt(f, h) == 1 && MemszAt(f, h) != 0
  }

  /** First page, and page behind the last one. */
  function FirstPage(f: Bytes, h: nat): nat
    requires h + 56 <= |f|
  {
    PaddrAt(f, h) / 4096
  }

  function EndPage(f: Bytes, h: nat): nat
    requires h + 56 <= |f|
  {
    (PaddrAt(f, h) + MemszAt(f, h) + 4095) / 4096
  }

  predicate RangesAt(f: Bytes, h: nat)
    requires h + 56 <= |f|
  {
    OffsetAt(f, h) + FileszAt(f, h) <= |f| && PaddrAt(f, h) + MemszAt(f, h) + 4095 < 0x1_0000_0000_0000_0000
  }

  predicate EntryAt(f: Bytes, h: nat)
    requires |f| >= 64 && h + 56 <= |f|
  {
    FlagsAt(f, h) % 2 == 1 && PaddrAt(f, h) <= Value(f, 24, 8) < PaddrAt(f, h) + FileszAt(f, h)
  }

  /** The numbers of the first n headers that take memory, in order. */
  function LoadedAt(f: Bytes, n: nat): (r: seq<nat>)
    requires HeaderBytes(f) && n <= Count(f)
    ensures forall k :: 0 <= k < |r| ==> r[k] < n && LoadsAt(f, HeaderAt(f, r[k]))
    ensures forall j, k :: 0 <= j < k < |r| ==> r[j] < r[k]
    ensures forall i :: 0 <= i < n && LoadsAt(f, HeaderAt(f, i)) ==> i in r
  {
    if n == 0 then [] else LoadedAt(f, n - 1) + if LoadsAt(f, HeaderAt(f, n - 1)) then [n - 1] else []
  }

  /** Two headers that take memory share no page and are within 256 MiB of each other. */
  predicate Compatible(f: Bytes, h: nat, k: nat)
    requires h + 56 <= |f| && k + 56 <= |f|
  {
    EndPage(f, h) * 4096 - FirstPage(f, k) * 4096 <= 0x1000_0000 &&
    (h != k ==> EndPage(f, h) <= FirstPage(f, k) || EndPage(f, k) <= FirstPage(f, h))
  }

  ghost predicate AcceptedBytes(f: Bytes) {
    HeaderBytes(f) &&
    (forall i :: 0 <= i < Count(f) && TypeAt(f, HeaderAt(f, i)) == 1 ==> PolicyAt(f, HeaderAt(f, i))) &&
    var r := LoadedAt(f, Count(f));
    (forall i :: 0 <= i < |r| ==> RangesAt(f, HeaderAt(f, r[i]))) &&
    (forall i, j :: 0 <= i < |r| && 0 <= j < |r| ==> Compatible(f, HeaderAt(f, r[i]), HeaderAt(f, r[j]))) &&
    1 <= |r| <= 16 && EntryFound(f, r)
  }

  /** The entry lies in the file's bytes of an executable header that takes memory. */
  ghost predicate EntryFound(f: Bytes, r: seq<nat>)
    requires HeaderBytes(f) && forall k :: 0 <= k < |r| ==> r[k] < Count(f)
  {
    exists i :: 0 <= i < |r| && EntryAt(f, HeaderAt(f, r[i]))
  }

  /** The segment of a header. */
  predicate Reads(s: Segment, f: Bytes, h: nat)
    requires h + 56 <= |f|
  {
    s.paddr == PaddrAt(f, h) && s.pageBase == FirstPage(f, h) * 4096 && s.pageEnd == EndPage(f, h) * 4096 &&
    s.offset == OffsetAt(f, h) && s.filesz == FileszAt(f, h) && s.memsz == MemszAt(f, h) && s.flags == FlagsAt(f, h)
  }

  // ---- the parser reads these fields ------------------------------------------------------------------

  lemma ParsedHeader(f: Bytes, h: nat)
    requires h + 56 <= |f|
    ensures var p := ParsePhdr(f, h);
      p.typ == TypeAt(f, h) && p.flags == FlagsAt(f, h) && p.offset == OffsetAt(f, h) && p.vaddr == VaddrAt(f, h) &&
      p.paddr == PaddrAt(f, h) && p.filesz == FileszAt(f, h) && p.memsz == MemszAt(f, h) && p.align == AlignAt(f, h)
  {
    hide Value;
    FieldValues(f, h);
    FieldValues(f, h + 4);
    FieldValues(f, h + 8);
    FieldValues(f, h + 16);
    FieldValues(f, h + 24);
    FieldValues(f, h + 32);
    FieldValues(f, h + 40);
    FieldValues(f, h + 48);
  }

  lemma ParsedEhdr(f: Bytes)
    requires |f| >= 64
    ensures HeaderBytes(f) <==> HeaderOk(ParseEhdr(f)) && TableInFile(f)
    ensures ParseEhdr(f).entry == Value(f, 24, 8) && ParseEhdr(f).phoff == Value(f, 32, 8)
    ensures ParseEhdr(f).phnum == Value(f, 56, 2)
  {
    hide Value;
    FieldValues(f, 16);
    FieldValues(f, 18);
    FieldValues(f, 20);
    FieldValues(f, 24);
    FieldValues(f, 32);
    FieldValues(f, 52);
    FieldValues(f, 54);
    FieldValues(f, 56);
    assert U32(f, 0) == f[0] as int + 256 * f[1] as int + 0x1_0000 * f[2] as int + 0x100_0000 * f[3] as int;
  }

  lemma ParsedAt(f: Bytes, i: nat)
    requires HeaderBytes(f) && i < Count(f)
    ensures TableInFile(f) && |Phdrs(f)| == Count(f) && Phdrs(f)[i] == ParsePhdr(f, HeaderAt(f, i))
  {
    hide Value;
    ParsedEhdr(f);
  }

  /** The conditions on one header, read by the parser. */
  lemma HeaderMeans(f: Bytes, i: nat)
    requires HeaderBytes(f) && i < Count(f)
    ensures TableInFile(f) && |Phdrs(f)| == Count(f)
    ensures var h, p := HeaderAt(f, i), Phdrs(f)[i];
      (p.typ == PT_LOAD <==> TypeAt(f, h) == 1) && (IsLoaded(p) <==> LoadsAt(f, h)) && (PolicyOk(p) <==> PolicyAt(f, h)) &&
      (InFile(p, |f|) && InMemory(p) <==> RangesAt(f, h))
  {
    var h := HeaderAt(f, i);
    ParsedAt(f, i);
    ParsedHeader(f, h);
    hide Value, Phdrs, HeaderBytes, TypeAt, FlagsAt, OffsetAt, VaddrAt, PaddrAt, FileszAt, MemszAt, AlignAt;
    FlagNumbers(FlagsAt(f, h));
    hide FlagsOk;
  }

  /** The segment of one header, read by the parser. */
  lemma SegmentMeans(f: Bytes, i: nat)
    requires HeaderBytes(f) && i < Count(f) && RangesAt(f, HeaderAt(f, i))
    ensures TableInFile(f) && |Phdrs(f)| == Count(f) && InMemory(Phdrs(f)[i])
    ensures Reads(SegmentOf(Phdrs(f)[i]), f, HeaderAt(f, i))
  {
    var h := HeaderAt(f, i);
    ParsedAt(f, i);
    ParsedHeader(f, h);
    hide Value, Phdrs, HeaderBytes, TypeAt, FlagsAt, OffsetAt, VaddrAt, PaddrAt, FileszAt, MemszAt, AlignAt;
  }

  lemma FlagNumbers(x: u32)
    ensures FlagsOk(x) <==> x in {0, 1, 2, 4, 5, 6}
  {
  }

  // ---- all headers ---------------------------------------------------------------------------------------

  lemma ParsedTable(f: Bytes)
    requires HeaderBytes(f)
    ensures TableInFile(f) && |Phdrs(f)| == Count(f)
  {
    ParsedAt(f, 0);
  }

  /** The loaded headers are those in the list. */
  lemma {:induction false} LoadedAre(f: Bytes, n: nat)
    requires HeaderBytes(f) && n <= Count(f)
    ensures TableInFile(f) && |Phdrs(f)| == Count(f) && |Loaded(Phdrs(f)[..n])| == |LoadedAt(f, n)|
    ensures forall k :: 0 <= k < |LoadedAt(f, n)| ==> Loaded(Phdrs(f)[..n])[k] == Phdrs(f)[LoadedAt(f, n)[k]]
  {
    hide LoadsAt, HeaderAt, HeaderBytes, Phdrs;
    ParsedTable(f);
    if n > 0 {
      LoadedAre(f, n - 1);
      HeaderMeans(f, n - 1);
      LoadedStep(Phdrs(f), n - 1);
    }
  }

  /** Segment k is that of the k-th header that takes memory. */
  ghost predicate AllRead(segs: seq<Segment>, f: Bytes)
    requires HeaderBytes(f)
  {
    |segs| == |LoadedAt(f, Count(f))| &&
    forall k :: 0 <= k < |segs| ==> Reads(segs[k], f, HeaderAt(f, LoadedAt(f, Count(f))[k]))
  }

  ghost predicate RangesAll(f: Bytes)
    requires HeaderBytes(f)
  {
    forall k :: 0 <= k < |LoadedAt(f, Count(f))| ==> RangesAt(f, HeaderAt(f, LoadedAt(f, Count(f))[k]))
  }

  lemma LoadedAll(f: Bytes)
    requires HeaderBytes(f)
    ensures TableInFile(f) && |Phdrs(f)| == Count(f)
    ensures |Loaded(Phdrs(f))| == |LoadedAt(f, Count(f))|
    ensures forall k :: 0 <= k < |Loaded(Phdrs(f))| ==> Loaded(Phdrs(f))[k] == Phdrs(f)[LoadedAt(f, Count(f))[k]]
  {
    hide LoadsAt, HeaderAt, HeaderBytes, Phdrs, Loaded;
    LoadedAre(f, Count(f));
    assert Phdrs(f)[..Count(f)] == Phdrs(f);
  }

  lemma RangesMean(f: Bytes)
    requires HeaderBytes(f)
    ensures TableInFile(f)
    ensures RangesAll(f) <==> forall p <- Loaded(Phdrs(f)) :: InFile(p, |f|) && InMemory(p)
  {
    hide LoadsAt, HeaderAt, HeaderBytes, RangesAt, InFile, InMemory, Phdrs, Loaded, LoadedAt;
    LoadedAll(f);
    var r, ps := LoadedAt(f, Count(f)), Loaded(Phdrs(f));
    forall k | 0 <= k < |r| ensures InFile(ps[k], |f|) && InMemory(ps[k]) <==> RangesAt(f, HeaderAt(f, r[k])) {
      HeaderMeans(f, r[k]);
    }
  }

  lemma SegmentsMean(f: Bytes)
    requires HeaderBytes(f) && RangesAll(f)
    ensures TableInFile(f) && forall p <- Loaded(Phdrs(f)) :: InMemory(p)
    ensures AllRead(Segments(Loaded(Phdrs(f))), f)
  {
    hide LoadsAt, HeaderAt, HeaderBytes, RangesAt, InFile, InMemory, Phdrs, Loaded, LoadedAt, Reads, SegmentOf;
    LoadedAll(f);
    RangesMean(f);
    var r, segs := LoadedAt(f, Count(f)), Segments(Loaded(Phdrs(f)));
    forall k | 0 <= k < |r| ensures Reads(segs[k], f, HeaderAt(f, r[k])) { SegmentMeans(f, r[k]); }
  }

  lemma PolicyMeans(f: Bytes)
    requires HeaderBytes(f)
    ensures TableInFile(f)
    ensures (forall p <- Phdrs(f) :: p.typ == PT_LOAD ==> PolicyOk(p)) <==>
      (forall i :: 0 <= i < Count(f) && TypeAt(f, HeaderAt(f, i)) == 1 ==> PolicyAt(f, HeaderAt(f, i)))
  {
    ParsedTable(f);
    hide PolicyAt, PolicyOk, HeaderAt, Phdrs, TypeAt, HeaderBytes, Count;
    forall i: nat | i < Count(f)
      ensures Phdrs(f)[i].typ == PT_LOAD ==> PolicyOk(Phdrs(f)[i]) <==>
              TypeAt(f, HeaderAt(f, i)) == 1 ==> PolicyAt(f, HeaderAt(f, i))
    {
      HeaderMeans(f, i);
    }
  }

  ghost predicate CompatibleAll(f: Bytes)
    requires HeaderBytes(f)
  {
    var r := LoadedAt(f, Count(f));
    forall i, j :: 0 <= i < |r| && 0 <= j < |r| ==> Compatible(f, HeaderAt(f, r[i]), HeaderAt(f, r[j]))
  }

  lemma PairReads(s: Segment, t: Segment, f: Bytes, h: nat, k: nat)
    requires h + 56 <= |f| && k + 56 <= |f| && Reads(s, f, h) && Reads(t, f, k)
    ensures Compatible(f, h, k) <==> s.pageEnd - t.pageBase <= MAX_KERNEL_SPAN && (h != k ==> Apart(s, t))
  {
    hide FirstPage, EndPage;
  }

  /** Overlap and span, segment by segment or header by header. */
  lemma CompatibleMeans(f: Bytes, segs: seq<Segment>)
    requires HeaderBytes(f) && AllRead(segs, f)
    ensures CompatibleAll(f) <==> PairwiseApart(segs) && SpanOk(segs)
  {
    hide HeaderAt, HeaderBytes, LoadedAt, Compatible, Reads, Apart;
    var r := LoadedAt(f, Count(f));
    forall i, j | 0 <= i < |r| && 0 <= j < |r|
      ensures Compatible(f, HeaderAt(f, r[i]), HeaderAt(f, r[j])) <==>
        segs[i].pageEnd - segs[j].pageBase <= MAX_KERNEL_SPAN && (i != j ==> Apart(segs[i], segs[j]))
    {
      PairReads(segs[i], segs[j], f, HeaderAt(f, r[i]), HeaderAt(f, r[j]));
      DistinctHeaders(f, i, j);
    }
    ApartEitherWay(segs);
    if CompatibleAll(f) {
      forall a, b | a in segs && b in segs ensures a.pageEnd - b.pageBase <= MAX_KERNEL_SPAN {
        var i, j :| 0 <= i < |segs| && segs[i] == a && 0 <= j < |segs| && segs[j] == b;
        assert Compatible(f, HeaderAt(f, r[i]), HeaderAt(f, r[j]));
      }
      forall i, j | 0 <= i < j < |segs| ensures Apart(segs[i], segs[j]) {
        assert Compatible(f, HeaderAt(f, r[i]), HeaderAt(f, r[j]));
      }
    }
    if PairwiseApart(segs) && SpanOk(segs) {
      forall i, j | 0 <= i < |r| && 0 <= j < |r| ensures Compatible(f, HeaderAt(f, r[i]), HeaderAt(f, r[j])) {
        assert segs[i] in segs && segs[j] in segs;
      }
    }
  }

  lemma ApartEitherWay(segs: seq<Segment>)
    ensures PairwiseApart(segs) ==> forall i, j :: 0 <= i < |segs| && 0 <= j < |segs| && i != j ==> Apart(segs[i], segs[j])
  {
    if PairwiseApart(segs) {
      forall i, j | 0 <= i < |segs| && 0 <= j < |segs| && i != j ensures Apart(segs[i], segs[j]) {
        assert Apart(segs[if i < j then i else j], segs[if i < j then j else i]);
      }
    }
  }

  lemma DistinctHeaders(f: Bytes, i: nat, j: nat)
    requires HeaderBytes(f) && i < |LoadedAt(f, Count(f))| && j < |LoadedAt(f, Count(f))|
    ensures HeaderAt(f, LoadedAt(f, Count(f))[i]) == HeaderAt(f, LoadedAt(f, Count(f))[j]) <==> i == j
  {
    hide HeaderBytes;
    var r := LoadedAt(f, Count(f));
    assert i < j ==> r[i] < r[j];
    assert j < i ==> r[j] < r[i];
  }

  lemma EntryReads(s: Segment, f: Bytes, h: nat)
    requires |f| >= 64 && h + 56 <= |f| && Reads(s, f, h)
    ensures HoldsEntry(s, ParseEhdr(f).entry) <==> EntryAt(f, h)
  {
    ParsedEhdr(f);
    hide Value, ParseEhdr, HeaderBytes, HeaderOk;
  }

  lemma EntryMeans(f: Bytes, segs: seq<Segment>)
    requires HeaderBytes(f) && AllRead(segs, f)
    ensures (exists s :: s in segs && HoldsEntry(s, ParseEhdr(f).entry)) <==> EntryFound(f, LoadedAt(f, Count(f)))
  {
    assert |f| >= 64;
    hide HeaderAt, HeaderBytes, LoadedAt, ParseEhdr, HoldsEntry, EntryAt, Reads;
    var r, entry := LoadedAt(f, Count(f)), ParseEhdr(f).entry;
    forall i | 0 <= i < |r| ensures HoldsEntry(segs[i], entry) <==> EntryAt(f, HeaderAt(f, r[i])) {
      EntryReads(segs[i], f, HeaderAt(f, r[i]));
    }
    if s :| s in segs && HoldsEntry(s, entry) {
      var i :| 0 <= i < |segs| && segs[i] == s;
      assert EntryAt(f, HeaderAt(f, r[i]));
      assert EntryFound(f, r);
    }
    if EntryFound(f, r) {
      var i :| 0 <= i < |r| && EntryAt(f, HeaderAt(f, r[i]));
      assert segs[i] in segs;
    }
  }

  /** An image is accepted if and only if its bytes are as stated. */
  lemma AcceptedExact(f: Bytes)
    ensures WellFormed(f) <==> AcceptedBytes(f)
  {
    if |f| >= 64 { ParsedEhdr(f); }
    if HeaderBytes(f) { ImageExact(f); }
    hide HeaderBytes, HeaderOk, TableInFile, ImageOk;
  }

  lemma ImageExact(f: Bytes)
    requires HeaderBytes(f)
    ensures TableInFile(f) && (ImageOk(Phdrs(f), ParseEhdr(f).entry, |f|) <==> AcceptedBytes(f))
  {
    hide HeaderBytes, HeaderAt, PolicyAt, PolicyOk, RangesAt, Compatible, EntryAt, SpanOk, PairwiseApart, HoldsEntry, Phdrs;
    hide InFile, InMemory, TypeAt, ParseEhdr, AllRead, EntryFound;
    ParsedTable(f);
    PolicyMeans(f);
    RangesMean(f);
    LoadedAll(f);
    if RangesAll(f) {
      var segs := Segments(Loaded(Phdrs(f)));
      SegmentsMean(f);
      CompatibleMeans(f, segs);
      EntryMeans(f, segs);
    }
  }

  /** The plan of an accepted image, from its bytes. */
  lemma PlanExact(f: Bytes, plan: LoadPlan)
    requires WellFormed(f) && IsPlanFor(plan, Phdrs(f), ParseEhdr(f).entry)
    ensures HeaderBytes(f) && plan.entry == Value(f, 24, 8) && AllRead(plan.segs, f)
    ensures forall s <- plan.segs :: plan.physBase <= s.pageBase && s.pageEnd <= plan.physEnd
    ensures exists s :: s in plan.segs && s.pageBase == plan.physBase
    ensures exists s :: s in plan.segs && s.pageEnd == plan.physEnd
  {
    ParsedEhdr(f);
    AcceptedExact(f);
    hide HeaderBytes, HeaderOk, PolicyOk, AllRead, Segments, Loaded, Phdrs;
    RangesMean(f);
    SegmentsMean(f);
  }

  // ---- one status for every file ------------------------------------------------------------------------

  /** Loaded headers before one of them lie in the file, in memory, and apart. */
  lemma NotPastHeader(phs: seq<Phdr>, i: nat, j: nat, fsize: nat, st: ElfStatus)
    requires i < j <= |phs| && HeaderStops(phs, i, fsize, st) && fsize < TWO64
    ensures !PrefixOk(phs, j, fsize)
  {
    if PrefixOk(phs, j, fsize) {
      var ps, before := Loaded(phs[..j]), Loaded(phs[..i]);
      assert phs[..j][..i] == phs[..i] && phs[..j][..i + 1] == phs[..i + 1] && phs[..j][i] == phs[i];
      LoadedStep(phs[..j], i);
      assert PolicyOk(phs[i]);
      if phs[i].memsz != 0 {
        assert ps[|before|] == phs[i] && phs[i] in ps;
        PairsApart(ps, before, phs[i]);
      }
    }
  }

  lemma PairsApart(ps: seq<Phdr>, before: seq<Phdr>, p: Phdr)
    requires before + [p] <= ps && (forall q <- ps :: InMemory(q)) && PairwiseApart(Segments(ps))
    ensures forall q <- before :: !Overlap(q, p)
  {
    forall q | q in before ensures !Overlap(q, p) {
      var k :| 0 <= k < |before| && before[k] == q;
      assert ps[k] == q && ps[|before|] == p;
      assert Apart(Segments(ps)[k], Segments(ps)[|before|]);
    }
  }

  lemma OneHeaderStop(phs: seq<Phdr>, i: nat, fsize: nat, st: ElfStatus, st': ElfStatus)
    requires i < |phs| && HeaderStops(phs, i, fsize, st) && HeaderStops(phs, i, fsize, st') && fsize < TWO64
    ensures st == st'
  {
  }

  lemma StoppedImage(phs: seq<Phdr>, i: nat, entry: u64, fsize: nat, st: ElfStatus)
    requires i < |phs| && HeaderStops(phs, i, fsize, st) && fsize < TWO64
    ensures !ImageOk(phs, entry, fsize)
  {
    if ImageOk(phs, entry, fsize) {
      assert phs[..|phs|] == phs;
      NotPastHeader(phs, i, |phs|, fsize, st);
    }
  }

  lemma PlanVerdictUnique(phs: seq<Phdr>, entry: u64, fsize: nat, st: ElfStatus, st': ElfStatus)
    requires PlanVerdict(phs, entry, fsize, st) && PlanVerdict(phs, entry, fsize, st') && fsize < TWO64
    ensures st == st'
  {
    var late := {Ok, ErrNoSegments, ErrTooBig, ErrEntry};
    hide HeaderStops, PrefixOk, Loaded, TooFar, HoldsEntry;
    if st !in late && st' !in late {
      var i :| 0 <= i < |phs| && PrefixOk(phs, i, fsize) && HeaderStops(phs, i, fsize, st);
      var j :| 0 <= j < |phs| && PrefixOk(phs, j, fsize) && HeaderStops(phs, j, fsize, st');
      if i < j {
        NotPastHeader(phs, i, j, fsize, st);
      } else if j < i {
        NotPastHeader(phs, j, i, fsize, st');
      } else {
        OneHeaderStop(phs, i, fsize, st, st');
      }
    } else if st !in late {
      var i :| 0 <= i < |phs| && PrefixOk(phs, i, fsize) && HeaderStops(phs, i, fsize, st);
      StoppedImage(phs, i, entry, fsize, st);
      NotPastHeader(phs, i, |phs|, fsize, st);
    } else if st' !in late {
      var i :| 0 <= i < |phs| && PrefixOk(phs, i, fsize) && HeaderStops(phs, i, fsize, st');
      StoppedImage(phs, i, entry, fsize, st');
      NotPastHeader(phs, i, |phs|, fsize, st');
    } else {
      if st == Ok { OkAlone(phs, entry, fsize, st'); }
      if st' == Ok { OkAlone(phs, entry, fsize, st); }
    }
  }

  lemma OkAlone(phs: seq<Phdr>, entry: u64, fsize: nat, st: ElfStatus)
    requires PlanVerdict(phs, entry, fsize, Ok) && PlanVerdict(phs, entry, fsize, st)
    requires st in {Ok, ErrNoSegments, ErrTooBig, ErrEntry}
    ensures st == Ok
  {
    hide PrefixOk, PolicyOk, PairwiseApart, HoldsEntry, Loaded, SegmentOf, InFile, InMemory;
    var segs := Segments(Loaded(phs));
    forall p | p in Loaded(phs) ensures SegmentOf(p) in segs { SegmentIn(Loaded(phs), p); }
    var s :| s in segs && HoldsEntry(s, entry);
    var k :| 0 <= k < |segs| && segs[k] == s;
    assert Loaded(phs)[k] in Loaded(phs) && SegmentOf(Loaded(phs)[k]) == s;
  }

  /** The conditions of the statuses exclude one another, so that each is returned exactly under its own. */
  lemma ImageVerdictUnique(f: Bytes, st: ElfStatus, st': ElfStatus)
    requires ImageVerdict(f, st) && ImageVerdict(f, st') && |f| < TWO64
    ensures st == st'
  {
    hide PlanVerdict;
    if |f| >= 64 && HeaderOk(ParseEhdr(f)) && TableInFile(f) {
      PlanVerdictUnique(Phdrs(f), ParseEhdr(f).entry, |f|, st, st');
    } else if |f| >= 64 && !HeaderOk(ParseEhdr(f)) {
      OneDefect(ParseEhdr(f), st, st');
    }
  }

  lemma OneDefect(eh: Ehdr, st: ElfStatus, st': ElfStatus)
    requires FirstDefect(eh, st) && FirstDefect(eh, st')
    ensures st == st'
  {
    assert TestNo(st) == TestNo(st');
  }

  // ---- headers written field by field ---------------------------------------------------------------------

  /** What the planner does not read: ABI and padding, section table, flags, section header fields. */
  datatype Unread = Unread(pad: Bytes, shoff: u64, flags: u32, sections: Bytes)

  predicate UnreadOk(u: Unread) { |u.pad| == 9 && |u.sections| == 6 }

  /** An ELF header in the order of the gABI. */
  function PrintEhdr(eh: Ehdr, u: Unread): (r: Bytes)
    requires UnreadOk(u)
    ensures |r| == 64
  {
    PrintIdent(eh, u) + (Put64(eh.entry) + Put64(eh.phoff) + Put64(u.shoff)) + (Put32(u.flags) + PrintSizes(eh) + u.sections)
  }

  /** Identification, type, machine and version. */
  function PrintIdent(eh: Ehdr, u: Unread): (r: Bytes)
    requires UnreadOk(u)
    ensures |r| == 24
  {
    Put32(eh.magic) + ([eh.cls, eh.data, eh.iversion] + u.pad) + (Put16(eh.typ) + Put16(eh.machine) + Put32(eh.version))
  }

  function PrintSizes(eh: Ehdr): (r: Bytes)
    ensures |r| == 6
  {
    Put16(eh.ehsize) + Put16(eh.phentsize) + Put16(eh.phnum)
  }

  function PrintPhdr(p: Phdr): (r: Bytes)
    ensures |r| == 56
  {
    (Put32(p.typ) + Put32(p.flags)) + (Put64(p.offset) + Put64(p.vaddr) + Put64(p.paddr)) +
    (Put64(p.filesz) + Put64(p.memsz) + Put64(p.align))
  }

  lemma IdentFields(f: Bytes, eh: Ehdr, u: Unread)
    requires UnreadOk(u) && Holds(f, 0, PrintIdent(eh, u))
    ensures Holds(f, 0, Put32(eh.magic)) && f[4] == eh.cls && f[5] == eh.data && f[6] == eh.iversion
    ensures Holds(f, 16, Put16(eh.typ)) && Holds(f, 18, Put16(eh.machine)) && Holds(f, 20, Put32(eh.version))
  {
    hide Put16, Put32, Holds;
    var mid := [eh.cls, eh.data, eh.iversion] + u.pad;
    HoldsThird(f, 0, Put32(eh.magic), mid, Put16(eh.typ) + Put16(eh.machine) + Put32(eh.version));
    HoldsThird(f, 16, Put16(eh.typ), Put16(eh.machine), Put32(eh.version));
    ThreeAt(f, 4, mid);
  }

  lemma ThreeAt(f: Bytes, o: nat, w: Bytes)
    requires Holds(f, o, w) && |w| >= 3
    ensures o + 3 <= |f| && f[o] == w[0] && f[o + 1] == w[1] && f[o + 2] == w[2]
  {
    var s := f[o..o + |w|];
    assert s[0] == w[0] && s[1] == w[1] && s[2] == w[2];
  }

  lemma EhdrFields(eh: Ehdr, u: Unread, rest: Bytes)
    requires UnreadOk(u)
    ensures var f := PrintEhdr(eh, u) + rest;
      Holds(f, 0, Put32(eh.magic)) && f[4] == eh.cls && f[5] == eh.data && f[6] == eh.iversion &&
      Holds(f, 16, Put16(eh.typ)) && Holds(f, 18, Put16(eh.machine)) && Holds(f, 20, Put32(eh.version)) &&
      Holds(f, 24, Put64(eh.entry)) && Holds(f, 32, Put64(eh.phoff)) &&
      Holds(f, 52, Put16(eh.ehsize)) && Holds(f, 54, Put16(eh.phentsize)) && Holds(f, 56, Put16(eh.phnum))
  {
    hide Put16, Put32, Put64, Holds, PrintIdent;
    var f := PrintEhdr(eh, u) + rest;
    var addresses, sizes := Put64(eh.entry) + Put64(eh.phoff) + Put64(u.shoff), Put32(u.flags) + PrintSizes(eh) + u.sections;
    HoldsTwo(PrintEhdr(eh, u), rest);
    HoldsThird(f, 0, PrintIdent(eh, u), addresses, sizes);
    IdentFields(f, eh, u);
    HoldsThird(f, 24, Put64(eh.entry), Put64(eh.phoff), Put64(u.shoff));
    HoldsThird(f, 48, Put32(u.flags), PrintSizes(eh), u.sections);
    HoldsThird(f, 52, Put16(eh.ehsize), Put16(eh.phentsize), Put16(eh.phnum));
  }

  lemma {:induction false} PrintedEhdr(eh: Ehdr, u: Unread, rest: Bytes)
    requires UnreadOk(u)
    ensures ParseEhdr(PrintEhdr(eh, u) + rest) == eh
  {
    hide Put16, Put32, Put64, U16, U32, U64, PrintEhdr, Holds;
    var f := PrintEhdr(eh, u) + rest;
    EhdrFields(eh, u, rest);
    HoldsField(f, 0, Put32(eh.magic));
    HoldsField(f, 16, Put16(eh.typ));
    HoldsField(f, 18, Put16(eh.machine));
    HoldsField(f, 20, Put32(eh.version));
    HoldsField(f, 24, Put64(eh.entry));
    HoldsField(f, 32, Put64(eh.phoff));
    HoldsField(f, 52, Put16(eh.ehsize));
    HoldsField(f, 54, Put16(eh.phentsize));
    HoldsField(f, 56, Put16(eh.phnum));
  }

  lemma PhdrFields(p: Phdr, before: Bytes, rest: Bytes)
    ensures var f, h := before + PrintPhdr(p) + rest, |before|;
      Holds(f, h, Put32(p.typ)) && Holds(f, h + 4, Put32(p.flags)) && Holds(f, h + 8, Put64(p.offset)) &&
      Holds(f, h + 16, Put64(p.vaddr)) && Holds(f, h + 24, Put64(p.paddr)) && Holds(f, h + 32, Put64(p.filesz)) &&
      Holds(f, h + 40, Put64(p.memsz)) && Holds(f, h + 48, Put64(p.align))
  {
    hide Put32, Put64, Holds;
    var f, h := before + PrintPhdr(p) + rest, |before|;
    var first, last := Put32(p.typ) + Put32(p.flags), Put64(p.filesz) + Put64(p.memsz) + Put64(p.align);
    HoldsThree(before, PrintPhdr(p), rest);
    HoldsThird(f, h, first, Put64(p.offset) + Put64(p.vaddr) + Put64(p.paddr), last);
    HoldsTwo(Put32(p.typ), Put32(p.flags));
    HoldsPart(f, h, first, 0, Put32(p.typ));
    HoldsPart(f, h, first, 4, Put32(p.flags));
    HoldsThird(f, h + 8, Put64(p.offset), Put64(p.vaddr), Put64(p.paddr));
    HoldsThird(f, h + 32, Put64(p.filesz), Put64(p.memsz), Put64(p.align));
  }

  lemma {:induction false} PrintedPhdr(p: Phdr, before: Bytes, rest: Bytes)
    ensures ParsePhdr(before + PrintPhdr(p) + rest, |before|) == p
  {
    hide Put32, Put64, U16, U32, U64, PrintPhdr, Holds;
    var f, h := before + PrintPhdr(p) + rest, |before|;
    PhdrFields(p, before, rest);
    HoldsField(f, h, Put32(p.typ));
    HoldsField(f, h + 4, Put32(p.flags));
    HoldsField(f, h + 8, Put64(p.offset));
    HoldsField(f, h + 16, Put64(p.vaddr));
    HoldsField(f, h + 24, Put64(p.paddr));
    HoldsField(f, h + 32, Put64(p.filesz));
    HoldsField(f, h + 40, Put64(p.memsz));
    HoldsField(f, h + 48, Put64(p.align));
  }
}
