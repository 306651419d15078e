/** elf64_load with the linear allocator: every segment is copied, zero-filled, and everything relocated. */
module ElfLoader {
  import opened Wrappers
  import opened Widths
  import opened Memory
  import opened Relocation

  const PT_LOAD: nat := 1

  datatype Phdr = Phdr(kind: nat, offset: nat, vaddr: nat, filesz: nat, memsz: nat)

  function Loads(phdrs: seq<Phdr>): (segs: seq<Phdr>)
    ensures |segs| <= |phdrs|
  {
    if phdrs == [] then []
    else
      var n := |phdrs| - 1;
      Loads(phdrs[..n]) + if phdrs[n].kind == PT_LOAD then [phdrs[n]] else []
  }

  /** The headers of type 1, and no others. */
  lemma {:induction false} LoadsAreTypeOne(phdrs: seq<Phdr>)
    ensures forall p :: p in Loads(phdrs) <==> p in phdrs && p.kind == 1
  {
    if phdrs != [] {
      var n := |phdrs| - 1;
      LoadsAreTypeOne(phdrs[..n]);
      assert phdrs == phdrs[..n] + [phdrs[n]];
    }
  }

  lemma {:induction false} LoadsPrefix(phdrs: seq<Phdr>, i: nat)
    requires i <= |phdrs|
    ensures Loads(phdrs[..i]) <= Loads(phdrs)
    decreases |phdrs| - i
  {
    if i == |phdrs| {
      assert phdrs[..i] == phdrs;
    } else {
      assert phdrs[..i + 1][..i] == phdrs[..i];
      LoadsPrefix(phdrs, i + 1);
    }
  }

  /** How many PT_LOAD headers come before header i. */
  function LoadsBefore(phdrs: seq<Phdr>, i: nat): (n: nat)
    requires i <= |phdrs|
  {
    |Loads(phdrs[..i])|
  }

  lemma LoadsBeforeEnds(phdrs: seq<Phdr>)
    ensures LoadsBefore(phdrs, 0) == 0 && LoadsBefore(phdrs, |phdrs|) == |Loads(phdrs)|
  {
    assert phdrs[..0] == [] && phdrs[..|phdrs|] == phdrs;
  }

  lemma LoadsAt(phdrs: seq<Phdr>, i: nat)
    requires i < |phdrs|
    ensures LoadsBefore(phdrs, i) <= LoadsBefore(phdrs, i + 1) <= |Loads(phdrs)|
    ensures LoadsBefore(phdrs, i + 1) == LoadsBefore(phdrs, i) + if phdrs[i].kind == PT_LOAD then 1 else 0
    ensures phdrs[i].kind == PT_LOAD ==> Loads(phdrs)[LoadsBefore(phdrs, i)] == phdrs[i]
  {
    assert phdrs[..i + 1][..i] == phdrs[..i];
    LoadsPrefix(phdrs, i + 1);
  }

  /** `segs` are the PT_LOAD headers, and count[i] of them come before header i. */
  predicate Counts(phdrs: seq<Phdr>, segs: seq<Phdr>, count: seq<nat>) {
    && |count| == |phdrs| + 1 && count[0] == 0 && count[|phdrs|] == |segs|
    && forall i :: 0 <= i < |phdrs| ==>
      && count[i + 1] == count[i] + (if phdrs[i].kind == PT_LOAD then 1 else 0)
      && (phdrs[i].kind == PT_LOAD ==> count[i] < |segs| && segs[count[i]] == phdrs[i])
  }

  lemma CountLoads(phdrs: seq<Phdr>) returns (segs: seq<Phdr>, count: seq<nat>)
    ensures segs == Loads(phdrs) && Counts(phdrs, segs, count)
  {
    segs := Loads(phdrs);
    count := seq(|phdrs| + 1, i requires 0 <= i <= |phdrs| => LoadsBefore(phdrs, i));
    LoadsBeforeEnds(phdrs);
    forall i | 0 <= i < |phdrs|
      ensures count[i + 1] == count[i] + (if phdrs[i].kind == PT_LOAD then 1 else 0)
      ensures phdrs[i].kind == PT_LOAD ==> count[i] < |segs| && segs[count[i]] == phdrs[i]
    {
      LoadsAt(phdrs, i);
    }
  }

  // ---- the linear allocator --------------------------------------------------------------------

  /** What one call of linear_alloc adds to phys_alloc_start. The page count is a uint32_t, and so is
      its product with the page size. */
  function AllocSize(size: nat): (n: nat)
    requires size < TWO64
    ensures n < TWO32 && n % PAGE == 0
  {
    (size + PAGE - 1) % TWO64 / PAGE % TWO32 * PAGE % TWO32
  }

  /** The block is large enough exactly when it stays below 4 GiB after rounding. */
  lemma AllocHolds(size: nat)
    requires size < TWO64
    ensures AllocSize(size) >= size <==> size <= TWO32 - PAGE
    ensures size <= TWO32 - PAGE ==> AllocSize(size) < size + PAGE
  {
    if size <= TWO32 - PAGE {
      var pages := (size + PAGE - 1) / PAGE;
      assert pages * PAGE <= size + PAGE - 1 < TWO32;
      assert AllocSize(size) == pages * PAGE;
    } else if size < TWO32 {
      assert (size + PAGE - 1) / PAGE == TWO32 / PAGE;
      assert AllocSize(size) == 0;
    }
  }

  predicate SizesOk(segs: seq<Phdr>) {
    forall i :: 0 <= i < |segs| ==> segs[i].memsz < TWO64
  }

  /** The size of each block. */
  function Blocks(segs: seq<Phdr>): (blocks: seq<nat>)
    requires SizesOk(segs)
    ensures |blocks| == |segs|
    ensures forall i :: 0 <= i < |blocks| ==> blocks[i] < TWO32
  {
    seq(|segs|, i requires 0 <= i < |segs| => AllocSize(segs[i].memsz))
  }

  /** phys_alloc_start after i calls. */
  function Dest(blocks: seq<nat>, start: nat, i: nat): (a: nat)
    requires i <= |blocks| && start < TWO64
    ensures a < TWO64
  {
    if i == 0 then start else (Dest(blocks, start, i - 1) + blocks[i - 1]) % TWO64
  }

  /** Where each call puts its block. */
  function Dests(blocks: seq<nat>, start: nat): (at: seq<nat>)
    requires start < TWO64
    ensures |at| == |blocks|
    ensures forall i :: 0 <= i < |at| ==> at[i] == Dest(blocks, start, i)
  {
    seq(|blocks|, i requires 0 <= i < |blocks| => Dest(blocks, start, i))
  }

  function Places(segs: seq<Phdr>, start: nat): (at: seq<nat>)
    requires SizesOk(segs) && start < TWO64
    ensures |at| == |segs|
  {
    Dests(Blocks(segs), start)
  }

  lemma AddNoWrap(d: nat, n: nat, limit: nat)
    requires d <= limit && n < TWO32 && limit + TWO32 <= TWO64
    ensures (d + n) % TWO64 == d + n <= limit + TWO32
  {
  }

  /** e_phnum is 16 bits wide, so phys_alloc_start cannot wrap from a start below 2^63. */
  lemma {:induction false} DestNoWrap(blocks: seq<nat>, start: nat, i: nat)
    requires i <= |blocks| < 0x1_0000 && start < TWO64 / 2
    requires forall k :: 0 <= k < |blocks| ==> blocks[k] < TWO32
    ensures start <= Dest(blocks, start, i) <= start + i * TWO32
    ensures i > 0 ==> Dest(blocks, start, i) == Dest(blocks, start, i - 1) + blocks[i - 1]
  {
    if i > 0 {
      DestNoWrap(blocks, start, i - 1);
      AddNoWrap(Dest(blocks, start, i - 1), blocks[i - 1], start + (i - 1) * TWO32);
    }
  }

  lemma AlignedSum(a: nat, b: nat)
    requires a % PAGE == 0 && b % PAGE == 0
    ensures (a + b) % TWO64 % PAGE == 0
  {
  }

  lemma {:induction false} DestAligned(blocks: seq<nat>, start: nat, i: nat)
    requires i <= |blocks| && start < TWO64 && start % PAGE == 0
    requires forall k :: 0 <= k < |blocks| ==> blocks[k] % PAGE == 0
    ensures Dest(blocks, start, i) % PAGE == 0
  {
    if i > 0 {
      DestAligned(blocks, start, i - 1);
      AlignedSum(Dest(blocks, start, i - 1), blocks[i - 1]);
    }
  }

  lemma {:induction false} DestIncreases(blocks: seq<nat>, start: nat, i: nat, j: nat)
    requires i < j <= |blocks| < 0x1_0000 && start < TWO64 / 2
    requires forall k :: 0 <= k < |blocks| ==> blocks[k] < TWO32
    ensures Dest(blocks, start, i) + blocks[i] <= Dest(blocks, start, j)
    decreases j
  {
    DestNoWrap(blocks, start, j);
    if i + 1 < j {
      DestIncreases(blocks, start, i, j - 1);
    }
  }

  /** Over a whole load, allocations are page-aligned. */
  lemma AllocationsAligned(segs: seq<Phdr>, start: nat, i: nat)
    requires i < |segs| && SizesOk(segs) && start < TWO64 && start % PAGE == 0
    ensures Places(segs, start)[i] % PAGE == 0
  {
    DestAligned(Blocks(segs), start, i);
  }

  /** They increase, and each begins after the whole of the segment before - provided no segment comes
      within a page of 4 GiB. */
  lemma AllocationsDisjoint(segs: seq<Phdr>, start: nat, i: nat, j: nat)
    requires i < j < |segs| < 0x1_0000 && SizesOk(segs) && start < TWO64 / 2
    requires segs[i].memsz <= TWO32 - PAGE
    ensures var at := Places(segs, start); start <= at[i] && at[i] + segs[i].memsz <= at[j]
  {
    var blocks := Blocks(segs);
    DestNoWrap(blocks, start, i);
    DestIncreases(blocks, start, i, j);
    AllocHolds(segs[i].memsz);
  }

  // ---- layouts -----------------------------------------------------------------------------------

  /** All segments, placed at `at`, are displaced by the same amount. */
  predicate Congruent(segs: seq<Phdr>, at: seq<nat>) {
    |at| == |segs| && forall i :: 0 <= i < |segs| ==> Shift(segs, at, i) == Shift(segs, at, 0)
  }

  /** How far segment i is moved. */
  function Shift(segs: seq<Phdr>, at: seq<nat>, i: nat): (d: nat)
    requires i < |segs| == |at|
    ensures d < TWO64
  {
    Wrap(at[i] - segs[i].vaddr)
  }

  /** Each segment is linked where the block of the one before ends. */
  predicate Contiguous(segs: seq<Phdr>, blocks: seq<nat>) {
    && |blocks| == |segs|
    && forall i :: 0 < i < |segs| ==> Wrap(segs[i].vaddr - segs[i - 1].vaddr) == blocks[i - 1]
  }

  lemma CongruentStep(v: int, v': int, d: int, d': int, n: int, shift: int)
    requires Wrap(d - v) == shift && 0 <= n < TWO64 && d' == (d + n) % TWO64
    ensures Wrap(d' - v') == shift <==> Wrap(v' - v) == n
  {
    assert Wrap(d' - v') == Wrap(d + n - v');
    assert (d + n - v') - (d - v) == n - (v' - v);
  }

  /** Segments i - 1 and i are moved alike exactly when they are linked one block apart. */
  lemma ShiftStep(segs: seq<Phdr>, blocks: seq<nat>, at: seq<nat>, i: nat)
    requires 0 < i < |segs| == |blocks| == |at| && blocks[i - 1] < TWO64
    requires at[i] == (at[i - 1] + blocks[i - 1]) % TWO64
    ensures Shift(segs, at, i) == Shift(segs, at, i - 1) <==> Wrap(segs[i].vaddr - segs[i - 1].vaddr) == blocks[i - 1]
  {
    CongruentStep(segs[i - 1].vaddr, segs[i].vaddr, at[i - 1], at[i], blocks[i - 1], Shift(segs, at, i - 1));
  }

  /** Places that go block by block. */
  predicate BlockByBlock(blocks: seq<nat>, at: seq<nat>) {
    && |at| == |blocks|
    && forall i :: 0 <= i < |at| - 1 ==> blocks[i] < TWO64 && at[i + 1] == (at[i] + blocks[i]) % TWO64
  }

  lemma {:induction false} ShiftUpTo(segs: seq<Phdr>, blocks: seq<nat>, at: seq<nat>, n: nat)
    requires BlockByBlock(blocks, at) && n < |segs| && Contiguous(segs, blocks)
    ensures Shift(segs, at, n) == Shift(segs, at, 0)
  {
    if n > 0 {
      assert at[n - 1 + 1] == (at[n - 1] + blocks[n - 1]) % TWO64;
      ShiftUpTo(segs, blocks, at, n - 1);
      ShiftStep(segs, blocks, at, n);
    }
  }

  lemma CongruentIff(segs: seq<Phdr>, blocks: seq<nat>, at: seq<nat>)
    requires BlockByBlock(blocks, at) && |segs| == |at|
    ensures Congruent(segs, at) <==> Contiguous(segs, blocks)
  {
    if Contiguous(segs, blocks) {
      forall i | 0 <= i < |segs| ensures Shift(segs, at, i) == Shift(segs, at, 0) {
        ShiftUpTo(segs, blocks, at, i);
      }
    }
    if Congruent(segs, at) {
      forall i | 0 < i < |segs| ensures Wrap(segs[i].vaddr - segs[i - 1].vaddr) == blocks[i - 1] {
        assert at[i - 1 + 1] == (at[i - 1] + blocks[i - 1]) % TWO64;
        assert Shift(segs, at, i) == Shift(segs, at, i - 1);
        ShiftStep(segs, blocks, at, i);
      }
    }
  }

  /** The allocator ignores the addresses segments are linked at, so whether they keep their distances
      is a property of the file: they do exactly when the file is laid out as the allocator goes. */
  lemma CongruentIffContiguous(segs: seq<Phdr>, start: nat)
    requires SizesOk(segs) && start < TWO64
    ensures Congruent(segs, Places(segs, start)) <==> Contiguous(segs, Blocks(segs))
  {
    CongruentIff(segs, Blocks(segs), Places(segs, start));
  }

  // ---- loading -----------------------------------------------------------------------------------

  /** What the loader's accesses need: a segment and its file bytes lie in memory, and memcpy's assertion
      holds for the copy. The file is at `base`. */
  predicate CanLoad(p: Phdr, base: nat, dest: nat, size: nat) {
    && p.filesz <= p.memsz && dest + p.memsz <= size
    && base + p.offset + p.filesz <= size && NoOverlap(dest, base + p.offset, p.filesz)
  }

  predicate Fits(segs: seq<Phdr>, at: seq<nat>, base: nat, size: nat) {
    && |at| == |segs|
    && forall i :: 0 <= i < |segs| ==> 0 < at[i] && CanLoad(segs[i], base, at[i], size)
  }

  /** Byte k of segment i: from the file, or zero. */
  function SegmentByte(m: Bytes, base: nat, p: Phdr, k: nat): (b: byte)
    requires base + p.offset + p.filesz <= |m| && k < p.memsz
  {
    if k < p.filesz then m[base + p.offset + k] else 0
  }

  /** Segment `p` in place at `dest`. */
  function LoadOne(m: Bytes, base: nat, p: Phdr, dest: nat): (m': Bytes)
    requires p.filesz <= p.memsz && dest + p.memsz <= |m| && base + p.offset + p.filesz <= |m|
    ensures |m'| == |m|
  {
    seq(|m|, a requires 0 <= a < |m| =>
      if dest <= a < dest + p.memsz then SegmentByte(m, base, p, a - dest) else m[a])
  }

  /** The first n segments in place, and no relocation. */
  function Loaded(m: Bytes, base: nat, segs: seq<Phdr>, at: seq<nat>, n: nat): (m': Bytes)
    requires Fits(segs, at, base, |m|) && n <= |segs|
    ensures |m'| == |m|
  {
    if n == 0 then m
    else LoadOne(Loaded(m, base, segs, at, n - 1), base, segs[n - 1], at[n - 1])
  }

  /** The parameters of the relocation that follows the loading of one segment. */
  function SegMove(p: Phdr, dest: nat, symtab: seq<nat>): (mv: Move) {
    Move(p.vaddr, p.vaddr, symtab, p.vaddr, dest)
  }

  predicate TargetsFit(segs: seq<Phdr>, at: seq<nat>, symtab: seq<nat>, rs: seq<Rela>, size: nat) {
    |at| == |segs| && forall i :: 0 <= i < |segs| ==> InMemory(SegMove(segs[i], at[i], symtab), rs, size)
  }

  /** Whether an entry is supported depends on the symbol table alone. */
  predicate TableOk(symtab: seq<nat>, rs: seq<Rela>) {
    AllSupported(Move(0, 0, symtab, 0, 0), rs)
  }

  lemma TableOkForSegment(symtab: seq<nat>, rs: seq<Rela>, p: Phdr, dest: nat)
    ensures TableOk(symtab, rs) <==> AllSupported(SegMove(p, dest, symtab), rs)
  {
    var z, mv := Move(0, 0, symtab, 0, 0), SegMove(p, dest, symtab);
    assert forall r :: Supported(z, r) == Supported(mv, r);
  }

  /** What elf64_load leaves after n segments: load one, run the table, load the next, run it again. */
  function LoadedAndRelocated(m: Bytes, base: nat, segs: seq<Phdr>, at: seq<nat>,
                              symtab: seq<nat>, rs: seq<Rela>, n: nat): (m': Bytes)
    requires Fits(segs, at, base, |m|) && n <= |segs|
    requires TableOk(symtab, rs) && TargetsFit(segs, at, symtab, rs, |m|)
    ensures |m'| == |m|
  {
    if n == 0 then m
    else
      var p, dest := segs[n - 1], at[n - 1];
      TableOkForSegment(symtab, rs, p, dest);
      Relocated(LoadOne(LoadedAndRelocated(m, base, segs, at, symtab, rs, n - 1), base, p, dest),
        SegMove(p, dest, symtab), rs)
  }

  // ---- one relocation is enough --------------------------------------------------------------------

  /** Two calls that treat every entry the same. */
  ghost predicate Alike(mv: Move, mv': Move) {
    && (forall r :: Target(mv', r) == Target(mv, r))
    && (forall r :: Supported(mv', r) <==> Supported(mv, r))
    && (forall r, w: nat :: Supported(mv, r) && Supported(mv', r) ==> NewWord(mv', r, w) == NewWord(mv, r, w))
  }

  lemma {:induction false} SameEffect(m: Bytes, mv: Move, mv': Move, rs: seq<Rela>)
    requires Alike(mv, mv') && AllSupported(mv, rs) && InMemory(mv, rs, |m|)
    ensures AllSupported(mv', rs) && InMemory(mv', rs, |m|)
    ensures Relocated(m, mv, rs) == Relocated(m, mv', rs)
  {
    if rs != [] {
      SameEffect(m, mv, mv', rs[..|rs| - 1]);
      assert Supported(mv, rs[|rs| - 1]);
    }
  }

  lemma SegmentsAlike(p: Phdr, dest: nat, q: Phdr, dest': nat, symtab: seq<nat>)
    requires Wrap(dest - p.vaddr) == Wrap(dest' - q.vaddr)
    ensures Alike(SegMove(p, dest, symtab), SegMove(q, dest', symtab))
  {
    var mv, mv' := SegMove(p, dest, symtab), SegMove(q, dest', symtab);
    forall r ensures Target(mv', r) == Target(mv, r) {
      SameTarget(mv, mv', r);
    }
  }

  lemma SameTarget(mv: Move, mv': Move, r: Rela)
    requires Wrap(mv.vbase - mv.start) == Wrap(mv'.vbase - mv'.start)
    ensures Target(mv, r) == Target(mv', r)
  {
    WrapSum(mv.vbase, -mv.start, r.offset);
    WrapSum(mv'.vbase, -mv'.start, r.offset);
  }

  /** No constant is relocated into the file itself. */
  ghost predicate FileIntact(segs: seq<Phdr>, base: nat, mv: Move, rs: seq<Rela>) {
    forall i, a :: 0 <= i < |segs| && base + segs[i].offset <= a < base + segs[i].offset + segs[i].filesz
      ==> !Overwritten(mv, rs, a)
  }

  lemma LoadKeepsAgreement(m: Bytes, m': Bytes, base: nat, p: Phdr, dest: nat, mv: Move, rs: seq<Rela>)
    requires AgreeOffTargets(m, m', mv, rs)
    requires p.filesz <= p.memsz && dest + p.memsz <= |m| && base + p.offset + p.filesz <= |m|
    requires forall a :: base + p.offset <= a < base + p.offset + p.filesz ==> !Overwritten(mv, rs, a)
    ensures AgreeOffTargets(LoadOne(m, base, p, dest), LoadOne(m', base, p, dest), mv, rs)
  {
    forall a | 0 <= a < |m| && !Overwritten(mv, rs, a)
      ensures LoadOne(m, base, p, dest)[a] == LoadOne(m', base, p, dest)[a]
    {
      LoadOneAt(m, base, p, dest, a);
      LoadOneAt(m', base, p, dest, a);
      assert dest <= a < dest + p.filesz ==> !Overwritten(mv, rs, base + p.offset + (a - dest));
    }
  }

  /** Relocating to the same address changes only the words it overwrites with constants. */
  lemma {:induction false} RelocationOffTargets(m: Bytes, mv: Move, rs: seq<Rela>)
    requires mv.dst == mv.src && AllSupported(mv, rs) && InMemory(mv, rs, |m|)
    ensures AgreeOffTargets(Relocated(m, mv, rs), m, mv, rs)
  {
    if rs != [] {
      var n := |rs| - 1;
      var m1 := Relocated(m, mv, rs[..n]);
      RelocationOffTargets(m, mv, rs[..n]);
      if rs[n].kind != R_X86_64_64 {
        OneIsIdentity(m1, mv, rs[n]);
      }
      forall a | 0 <= a < |m| && !Overwritten(mv, rs, a) ensures Relocated(m, mv, rs)[a] == m[a] {
        assert !Overwritten(mv, rs[..n], a);
      }
    }
  }

  /** The move of the first segment stands for all of them. */
  function FirstMove(segs: seq<Phdr>, at: seq<nat>, symtab: seq<nat>): (mv: Move)
    requires segs != [] && at != []
  {
    SegMove(segs[0], at[0], symtab)
  }

  /** Running the table after every segment, over memory only partly loaded, is the same as loading
      everything and running it once - for any table, whatever its order and overlaps, as long as the
      segments keep their distances and the table does not write into the file. */
  lemma {:induction false} LoadIsOneRelocation(m: Bytes, base: nat, segs: seq<Phdr>, at: seq<nat>,
                                               symtab: seq<nat>, rs: seq<Rela>, n: nat)
    requires Fits(segs, at, base, |m|) && 0 < n <= |segs|
    requires TableOk(symtab, rs) && TargetsFit(segs, at, symtab, rs, |m|)
    requires Congruent(segs, at) && FileIntact(segs, base, FirstMove(segs, at, symtab), rs)
    ensures AllSupported(FirstMove(segs, at, symtab), rs) && InMemory(FirstMove(segs, at, symtab), rs, |m|)
    ensures LoadedAndRelocated(m, base, segs, at, symtab, rs, n)
         == Relocated(Loaded(m, base, segs, at, n), FirstMove(segs, at, symtab), rs)
  {
    var mv := FirstMove(segs, at, symtab);
    var p, dest := segs[n - 1], at[n - 1];
    TableOkForSegment(symtab, rs, segs[0], at[0]);
    TableOkForSegment(symtab, rs, p, dest);
    var before := LoadedAndRelocated(m, base, segs, at, symtab, rs, n - 1);
    var plain := Loaded(m, base, segs, at, n - 1);
    if n > 1 {
      LoadIsOneRelocation(m, base, segs, at, symtab, rs, n - 1);
      RelocationOffTargets(plain, mv, rs);
    }
    LoadKeepsAgreement(before, plain, base, p, dest, mv, rs);
    assert Shift(segs, at, n - 1) == Shift(segs, at, 0);
    SegmentsAlike(p, dest, segs[0], at[0], symtab);
    SameEffect(LoadOne(before, base, p, dest), SegMove(p, dest, symtab), mv, rs);
    RelocatedForgets(LoadOne(before, base, p, dest), LoadOne(plain, base, p, dest), mv, rs);
  }

  // ---- what is where afterwards --------------------------------------------------------------------

  predicate InSegment(segs: seq<Phdr>, at: seq<nat>, i: nat, a: int)
    requires i < |segs| == |at|
  {
    at[i] <= a < at[i] + segs[i].memsz
  }

  /** Loading changes nothing outside the segments and the relocated words. */
  lemma LoadTouchesOnlySegments(m: Bytes, base: nat, segs: seq<Phdr>, at: seq<nat>,
                                symtab: seq<nat>, rs: seq<Rela>, a: nat)
    requires Fits(segs, at, base, |m|) && segs != [] && a < |m|
    requires TableOk(symtab, rs) && TargetsFit(segs, at, symtab, rs, |m|)
    requires Congruent(segs, at) && FileIntact(segs, base, FirstMove(segs, at, symtab), rs)
    requires !Overwritten(FirstMove(segs, at, symtab), rs, a)
    requires forall i :: 0 <= i < |segs| ==> !InSegment(segs, at, i, a)
    ensures LoadedAndRelocated(m, base, segs, at, symtab, rs, |segs|)[a] == m[a]
  {
    LoadIsOneRelocation(m, base, segs, at, symtab, rs, |segs|);
    RelocationOffTargets(Loaded(m, base, segs, at, |segs|), FirstMove(segs, at, symtab), rs);
    LoadedLater(m, base, segs, at, 0, |segs|, a);
  }

  /** No segment is placed over the file it or another one is read from. */
  predicate FileApart(segs: seq<Phdr>, at: seq<nat>, base: nat)
    requires |at| == |segs|
  {
    forall i, j :: 0 <= i < |segs| && 0 <= j < |segs| ==>
      || at[i] + segs[i].memsz <= base + segs[j].offset
      || base + segs[j].offset + segs[j].filesz <= at[i]
  }

  /** Segments neither overlap each other nor the file they are read from. */
  predicate Separate(segs: seq<Phdr>, at: seq<nat>, base: nat)
    requires |at| == |segs|
  {
    && (forall i, j :: 0 <= i < j < |segs| ==> at[i] + segs[i].memsz <= at[j])
    && FileApart(segs, at, base)
  }

  /** What later segments do not cover stays as it was after the first n. */
  lemma {:induction false} LoadedLater(m: Bytes, base: nat, segs: seq<Phdr>, at: seq<nat>, n: nat, k: nat, a: nat)
    requires Fits(segs, at, base, |m|) && n <= k <= |segs| && a < |m|
    requires forall j :: n <= j < k ==> !InSegment(segs, at, j, a)
    ensures Loaded(m, base, segs, at, k)[a] == Loaded(m, base, segs, at, n)[a]
    decreases k
  {
    if n < k {
      LoadedLater(m, base, segs, at, n, k - 1, a);
      LoadOneAt(Loaded(m, base, segs, at, k - 1), base, segs[k - 1], at[k - 1], a);
      assert !InSegment(segs, at, k - 1, a);
    }
  }

  lemma NotInLater(segs: seq<Phdr>, at: seq<nat>, base: nat, i: nat, a: nat)
    requires i < |segs| == |at| && Separate(segs, at, base) && InSegment(segs, at, i, a)
    ensures forall j :: i < j < |segs| ==> !InSegment(segs, at, j, a)
  {
  }

  /** A segment's bytes are right as soon as it has been loaded. */
  lemma JustLoadedByte(m: Bytes, base: nat, segs: seq<Phdr>, at: seq<nat>, i: nat, k: nat, a: nat)
    requires Fits(segs, at, base, |m|) && Separate(segs, at, base)
    requires i < |segs| && k < segs[i].memsz && a == at[i] + k < |m|
    ensures Loaded(m, base, segs, at, i + 1)[a] == SegmentByte(m, base, segs[i], k)
  {
    FileUntouched(m, base, segs, at, i, k);
    LoadOneAt(Loaded(m, base, segs, at, i), base, segs[i], at[i], a);
  }

  /** After loading, every segment holds its file bytes and then zeroes. */
  lemma LoadedByte(m: Bytes, base: nat, segs: seq<Phdr>, at: seq<nat>, i: nat, k: nat, a: nat)
    requires Fits(segs, at, base, |m|) && Separate(segs, at, base)
    requires i < |segs| && k < segs[i].memsz && a == at[i] + k < |m|
    ensures Loaded(m, base, segs, at, |segs|)[a] == SegmentByte(m, base, segs[i], k)
  {
    JustLoadedByte(m, base, segs, at, i, k, a);
    NotInLater(segs, at, base, i, a);
    LoadedLater(m, base, segs, at, i + 1, |segs|, a);
  }

  lemma LoadOneAt(m: Bytes, base: nat, p: Phdr, dest: nat, a: nat)
    requires p.filesz <= p.memsz && dest + p.memsz <= |m| && base + p.offset + p.filesz <= |m| && a < |m|
    ensures LoadOne(m, base, p, dest)[a]
         == if dest <= a < dest + p.memsz then SegmentByte(m, base, p, a - dest) else m[a]
  {
  }

  /** The file bytes of segment i are still there when its turn comes. */
  lemma FileUntouched(m: Bytes, base: nat, segs: seq<Phdr>, at: seq<nat>, i: nat, k: nat)
    requires Fits(segs, at, base, |m|) && Separate(segs, at, base)
    requires i < |segs| && k < segs[i].memsz
    ensures SegmentByte(Loaded(m, base, segs, at, i), base, segs[i], k) == SegmentByte(m, base, segs[i], k)
  {
    if k < segs[i].filesz {
      var a := base + segs[i].offset + k;
      forall j | 0 <= j < i ensures !InSegment(segs, at, j, a) {
        assert at[j] + segs[j].memsz <= base + segs[i].offset || base + segs[i].offset + segs[i].filesz <= at[j];
      }
      LoadedLater(m, base, segs, at, 0, i, a);
    }
  }

  // ---- the image, written out ----------------------------------------------------------------------

  /** Entry i stores a constant, and no later one does so over it. */
  predicate LastConstant(rs: seq<Rela>, i: nat)
    requires i < |rs|
  {
    && rs[i].kind == 1 && rs[i].offset + 8 <= 0x1_0000_0000_0000_0000
    && forall j :: i < j < |rs| && rs[j].kind == 1 ==>
         && rs[j].offset + 8 <= 0x1_0000_0000_0000_0000
         && (rs[j].offset + 8 <= rs[i].offset || rs[i].offset + 8 <= rs[j].offset)
  }

  predicate Within(p: Phdr, r: Rela) {
    p.vaddr <= r.offset && r.offset + 8 <= p.vaddr + p.memsz
  }

  /** Every constant is where its segment went, and is the symbol's value plus the addend. */
  predicate ConstantsStored(now: Bytes, segs: seq<Phdr>, at: seq<nat>, rs: seq<Rela>, vs: seq<nat>)
    requires |at| == |segs|
  {
    forall i, k :: 0 <= i < |rs| && 0 <= k < |segs| && LastConstant(rs, i) && Within(segs[k], rs[i]) ==>
      rs[i].sym < |vs| && Holds(now, at[k] + (rs[i].offset - segs[k].vaddr),
                            (vs[rs[i].sym] + rs[i].addend) % 0x1_0000_0000_0000_0000)
  }

  /** No constant is written over the byte linked at v. */
  predicate Unwritten(rs: seq<Rela>, v: nat) {
    forall i :: 0 <= i < |rs| && rs[i].kind == 1 ==> !(rs[i].offset <= v < rs[i].offset + 8)
  }

  /** Byte b of the segment is the file's, or zero past the file's part of it. */
  predicate ByteLoaded(was: Bytes, now: Bytes, base: nat, p: Phdr, dest: nat, rs: seq<Rela>, b: nat)
    requires CanLoad(p, base, dest, |was|) && |now| == |was| && b < p.memsz
  {
    Unwritten(rs, p.vaddr + b) ==> now[dest + b] == if b < p.filesz then was[base + p.offset + b] else 0
  }

  predicate Outside(segs: seq<Phdr>, at: seq<nat>, a: nat)
    requires |at| == |segs|
  {
    forall k :: 0 <= k < |segs| ==> !(at[k] <= a < at[k] + segs[k].memsz)
  }

  /** The bytes off the constants, and outside of the segments. */
  predicate BytesLoaded(was: Bytes, now: Bytes, base: nat, segs: seq<Phdr>, at: seq<nat>, rs: seq<Rela>)
    requires Fits(segs, at, base, |was|) && |now| == |was|
  {
    && (forall k, b :: 0 <= k < |segs| && 0 <= b < segs[k].memsz ==> ByteLoaded(was, now, base, segs[k], at[k], rs, b))
    && (forall a :: 0 <= a < |was| && Outside(segs, at, a) ==> now[a] == was[a])
  }

  /** All addresses are 64 bits wide, and every constant belongs to some segment. */
  ghost predicate WellLinked(segs: seq<Phdr>, rs: seq<Rela>) {
    && (forall k :: 0 <= k < |segs| ==> segs[k].vaddr + segs[k].memsz <= 0x1_0000_0000_0000_0000)
    && (forall i :: 0 <= i < |rs| && rs[i].kind == 1 ==> exists k :: 0 <= k < |segs| && Within(segs[k], rs[i]))
  }

  lemma TargetsStayApart(c: int, o: nat, q: nat)
    requires o + 8 <= TWO64 && q + 8 <= TWO64 && (o + 8 <= q || q + 8 <= o)
    requires (c + o) % TWO64 + 8 <= TWO64 && (c + q) % TWO64 + 8 <= TWO64
    ensures (c + o) % TWO64 + 8 <= (c + q) % TWO64 || (c + q) % TWO64 + 8 <= (c + o) % TWO64
  {
  }

  lemma OneKeepsConstant(m: Bytes, mv: Move, r: Rela, t: nat, v: nat)
    requires mv.dst == mv.src && Supported(mv, r) && (r.kind != R_X86_64_NONE ==> Target(mv, r) + 8 <= |m|)
    requires r.kind == R_X86_64_64 ==> Target(mv, r) + 8 <= t || t + 8 <= Target(mv, r)
    requires Holds(m, t, v)
    ensures Holds(RelocateOne(m, mv, r), t, v)
  {
    if r.kind != R_X86_64_64 {
      OneIsIdentity(m, mv, r);
    }
  }

  lemma ConstantWritten(m: Bytes, mv: Move, r: Rela)
    requires Supported(mv, r) && r.kind == R_X86_64_64 && Target(mv, r) + 8 <= |m|
    ensures Holds(RelocateOne(m, mv, r), Target(mv, r), NewWord(mv, r, 0))
  {
    SetWordHolds(m, Target(mv, r), NewWord(mv, r, 0));
  }

  lemma LastInFront(rs: seq<Rela>, i: nat)
    requires i < |rs| - 1 && LastConstant(rs, i)
    ensures LastConstant(rs[..|rs| - 1], i)
    ensures rs[|rs| - 1].kind == 1 ==>
              var o, q := rs[i].offset, rs[|rs| - 1].offset;
              o + 8 <= TWO64 && q + 8 <= TWO64 && (o + 8 <= q || q + 8 <= o)
  {
  }

  lemma {:induction false} ConstantStays(m: Bytes, mv: Move, rs: seq<Rela>, i: nat, t: nat, v: nat)
    requires mv.dst == mv.src && AllSupported(mv, rs) && InMemory(mv, rs, |m|) && |m| <= TWO64
    requires i < |rs| && LastConstant(rs, i) && t == Target(mv, rs[i]) && v == NewWord(mv, rs[i], 0)
    ensures Holds(Relocated(m, mv, rs), t, v)
  {
    var n := |rs| - 1;
    var m1 := Relocated(m, mv, rs[..n]);
    if i == n {
      ConstantWritten(m1, mv, rs[n]);
    } else {
      LastInFront(rs, i);
      ConstantStays(m, mv, rs[..n], i, t, v);
      if rs[n].kind == R_X86_64_64 {
        TargetsStayApart(mv.vbase - mv.start, rs[i].offset, rs[n].offset);
      }
      OneKeepsConstant(m1, mv, rs[n], t, v);
    }
  }

  /** Where the word of an entry within segment k is, whichever segment's relocation writes it. */
  lemma TargetInSegment(segs: seq<Phdr>, at: seq<nat>, symtab: seq<nat>, r: Rela, n: nat, k: nat)
    requires Congruent(segs, at) && n < |segs| && k < |segs| && Within(segs[k], r)
    requires at[k] + segs[k].memsz <= TWO64
    ensures Target(SegMove(segs[n], at[n], symtab), r) == at[k] + (r.offset - segs[k].vaddr)
  {
    assert Shift(segs, at, n) == Shift(segs, at, 0) == Shift(segs, at, k);
    SegmentsAlike(segs[n], at[n], segs[k], at[k], symtab);
    var a := at[k] + (r.offset - segs[k].vaddr);
    assert 0 <= a < TWO64;
    assert Target(SegMove(segs[k], at[k], symtab), r) == Wrap(a) == a;
  }

  lemma ConstantIsStored(before: Bytes, segs: seq<Phdr>, at: seq<nat>, symtab: seq<nat>, rs: seq<Rela>, n: nat,
                         i: nat, k: nat)
    requires Congruent(segs, at) && n < |segs| && k < |segs| && |before| <= TWO64
    requires at[k] + segs[k].memsz <= |before|
    requires var mv := SegMove(segs[n], at[n], symtab); AllSupported(mv, rs) && InMemory(mv, rs, |before|)
    requires i < |rs| && LastConstant(rs, i) && Within(segs[k], rs[i])
    ensures rs[i].sym < |symtab|
    ensures Holds(Relocated(before, SegMove(segs[n], at[n], symtab), rs),
              at[k] + (rs[i].offset - segs[k].vaddr), (symtab[rs[i].sym] + rs[i].addend) % TWO64)
  {
    TargetInSegment(segs, at, symtab, rs[i], n, k);
    var mv := SegMove(segs[n], at[n], symtab);
    assert Supported(mv, rs[i]) && NewWord(mv, rs[i], 0) == (symtab[rs[i].sym] + rs[i].addend) % TWO64;
    ConstantStays(before, mv, rs, i, at[k] + (rs[i].offset - segs[k].vaddr), NewWord(mv, rs[i], 0));
  }

  lemma ConstantsAreStored(m: Bytes, base: nat, segs: seq<Phdr>, at: seq<nat>, symtab: seq<nat>, rs: seq<Rela>)
    returns (now: Bytes)
    requires Fits(segs, at, base, |m|) && |m| <= TWO64 && Congruent(segs, at) && segs != []
    requires TableOk(symtab, rs) && TargetsFit(segs, at, symtab, rs, |m|)
    ensures now == LoadedAndRelocated(m, base, segs, at, symtab, rs, |segs|)
    ensures ConstantsStored(now, segs, at, rs, symtab)
  {
    var n := |segs| - 1;
    TableOkForSegment(symtab, rs, segs[n], at[n]);
    var before := LoadOne(LoadedAndRelocated(m, base, segs, at, symtab, rs, n), base, segs[n], at[n]);
    now := Relocated(before, SegMove(segs[n], at[n], symtab), rs);
    forall i, k | 0 <= i < |rs| && 0 <= k < |segs| && LastConstant(rs, i) && Within(segs[k], rs[i])
      ensures rs[i].sym < |symtab|
      ensures Holds(now, at[k] + (rs[i].offset - segs[k].vaddr), (symtab[rs[i].sym] + rs[i].addend) % TWO64)
    {
      ConstantIsStored(before, segs, at, symtab, rs, n, i, k);
    }
  }

  /** A byte that a constant overwrites lies in the segment the constant belongs to. */
  lemma OverwrittenInside(segs: seq<Phdr>, at: seq<nat>, symtab: seq<nat>, rs: seq<Rela>, a: nat)
    returns (i: nat, k: nat)
    requires segs != [] && Congruent(segs, at) && WellLinked(segs, rs)
    requires forall k :: 0 <= k < |segs| ==> at[k] + segs[k].memsz <= TWO64
    requires Overwritten(FirstMove(segs, at, symtab), rs, a)
    ensures i < |rs| && k < |segs| && rs[i].kind == 1 && Within(segs[k], rs[i])
    ensures at[k] + (rs[i].offset - segs[k].vaddr) <= a < at[k] + (rs[i].offset - segs[k].vaddr) + 8
  {
    var mv := FirstMove(segs, at, symtab);
    i :| 0 <= i < |rs| && rs[i].kind == R_X86_64_64 && Target(mv, rs[i]) <= a < Target(mv, rs[i]) + 8;
    k :| 0 <= k < |segs| && Within(segs[k], rs[i]);
    TargetInSegment(segs, at, symtab, rs[i], 0, k);
  }

  lemma FileStaysIntact(segs: seq<Phdr>, at: seq<nat>, base: nat, symtab: seq<nat>, rs: seq<Rela>)
    requires segs != [] && Congruent(segs, at) && WellLinked(segs, rs) && FileApart(segs, at, base)
    requires forall k :: 0 <= k < |segs| ==> at[k] + segs[k].memsz <= TWO64
    ensures FileIntact(segs, base, FirstMove(segs, at, symtab), rs)
  {
    forall s, a | 0 <= s < |segs| && base + segs[s].offset <= a < base + segs[s].offset + segs[s].filesz
      ensures !Overwritten(FirstMove(segs, at, symtab), rs, a)
    {
      if Overwritten(FirstMove(segs, at, symtab), rs, a) {
        var i, k := OverwrittenInside(segs, at, symtab, rs, a);
        assert false;
      }
    }
  }

  lemma UnwrittenByte(segs: seq<Phdr>, at: seq<nat>, base: nat, symtab: seq<nat>, rs: seq<Rela>, k: nat, b: nat)
    requires segs != [] && Congruent(segs, at) && WellLinked(segs, rs) && Separate(segs, at, base)
    requires forall s :: 0 <= s < |segs| ==> at[s] + segs[s].memsz <= TWO64
    requires k < |segs| && b < segs[k].memsz && Unwritten(rs, segs[k].vaddr + b)
    ensures !Overwritten(FirstMove(segs, at, symtab), rs, at[k] + b)
  {
    if Overwritten(FirstMove(segs, at, symtab), rs, at[k] + b) {
      var i, s := OverwrittenInside(segs, at, symtab, rs, at[k] + b);
      assert false;
    }
  }

  lemma OutsideByte(segs: seq<Phdr>, at: seq<nat>, symtab: seq<nat>, rs: seq<Rela>, a: nat)
    requires segs != [] && Congruent(segs, at) && WellLinked(segs, rs) && Outside(segs, at, a)
    requires forall s :: 0 <= s < |segs| ==> at[s] + segs[s].memsz <= TWO64
    ensures !Overwritten(FirstMove(segs, at, symtab), rs, a)
  {
    if Overwritten(FirstMove(segs, at, symtab), rs, a) {
      var i, k := OverwrittenInside(segs, at, symtab, rs, a);
      assert false;
    }
  }

  /** What elf64_load leaves at the loaded copy of an address, off the words relocated with constants. */
  lemma CopyHoldsFileByte(m: Bytes, base: nat, segs: seq<Phdr>, at: seq<nat>,
                          symtab: seq<nat>, rs: seq<Rela>, i: nat, k: nat)
    requires Fits(segs, at, base, |m|) && TargetsFit(segs, at, symtab, rs, |m|) && TableOk(symtab, rs)
    requires Congruent(segs, at) && Separate(segs, at, base) && i < |segs| && k < segs[i].memsz
    requires FileIntact(segs, base, FirstMove(segs, at, symtab), rs)
    requires !Overwritten(FirstMove(segs, at, symtab), rs, at[i] + k)
    ensures LoadedAndRelocated(m, base, segs, at, symtab, rs, |segs|)[at[i] + k] == SegmentByte(m, base, segs[i], k)
  {
    assert at[i] + k < |m|;
    LoadIsOneRelocation(m, base, segs, at, symtab, rs, |segs|);
    RelocationOffTargets(Loaded(m, base, segs, at, |segs|), FirstMove(segs, at, symtab), rs);
    LoadedByte(m, base, segs, at, i, k, at[i] + k);
  }

  lemma BytesAreLoaded(m: Bytes, base: nat, segs: seq<Phdr>, at: seq<nat>, symtab: seq<nat>, rs: seq<Rela>)
    returns (now: Bytes)
    requires Fits(segs, at, base, |m|) && |m| <= TWO64 && Congruent(segs, at) && segs != []
    requires TableOk(symtab, rs) && TargetsFit(segs, at, symtab, rs, |m|)
    requires Separate(segs, at, base) && WellLinked(segs, rs)
    ensures now == LoadedAndRelocated(m, base, segs, at, symtab, rs, |segs|)
    ensures BytesLoaded(m, now, base, segs, at, rs)
  {
    now := LoadedAndRelocated(m, base, segs, at, symtab, rs, |segs|);
    FileStaysIntact(segs, at, base, symtab, rs);
    forall k, b | 0 <= k < |segs| && 0 <= b < segs[k].memsz ensures ByteLoaded(m, now, base, segs[k], at[k], rs, b) {
      if Unwritten(rs, segs[k].vaddr + b) {
        UnwrittenByte(segs, at, base, symtab, rs, k, b);
        CopyHoldsFileByte(m, base, segs, at, symtab, rs, k, b);
        SegmentByteIs(m, base, segs[k], b);
      }
    }
    forall a | 0 <= a < |m| && Outside(segs, at, a) ensures now[a] == m[a] {
      OutsideByte(segs, at, symtab, rs, a);
      LoadTouchesOnlySegments(m, base, segs, at, symtab, rs, a);
    }
  }

  /** Without a table the segments are loaded, and that is all. */
  lemma {:induction false} NoTable(m: Bytes, base: nat, segs: seq<Phdr>, at: seq<nat>, symtab: seq<nat>, n: nat)
    requires Fits(segs, at, base, |m|) && n <= |segs| && TableOk(symtab, [])
    requires TargetsFit(segs, at, symtab, [], |m|)
    ensures LoadedAndRelocated(m, base, segs, at, symtab, [], n) == Loaded(m, base, segs, at, n)
  {
    if n > 0 {
      NoTable(m, base, segs, at, symtab, n - 1);
    }
  }

  lemma SegmentByteIs(m: Bytes, base: nat, p: Phdr, b: nat)
    requires base + p.offset + p.filesz <= |m| && b < p.memsz
    ensures SegmentByte(m, base, p, b) == if b < p.filesz then m[base + p.offset + b] else 0
  {
  }

  lemma ByteJustLoaded(m: Bytes, base: nat, segs: seq<Phdr>, at: seq<nat>, k: nat, b: nat)
    requires Fits(segs, at, base, |m|) && Separate(segs, at, base) && k < |segs| && b < segs[k].memsz
    ensures ByteLoaded(m, Loaded(m, base, segs, at, |segs|), base, segs[k], at[k], [], b)
  {
    var a := at[k] + b;
    assert a < |m|;
    LoadedByte(m, base, segs, at, k, b, a);
    SegmentByteIs(m, base, segs[k], b);
  }

  lemma BytesJustLoaded(m: Bytes, base: nat, segs: seq<Phdr>, at: seq<nat>)
    requires Fits(segs, at, base, |m|) && Separate(segs, at, base)
    ensures BytesLoaded(m, Loaded(m, base, segs, at, |segs|), base, segs, at, [])
  {
    var now := Loaded(m, base, segs, at, |segs|);
    forall k, b | 0 <= k < |segs| && 0 <= b < segs[k].memsz ensures ByteLoaded(m, now, base, segs[k], at[k], [], b) {
      ByteJustLoaded(m, base, segs, at, k, b);
    }
    forall a | 0 <= a < |m| && Outside(segs, at, a) ensures now[a] == m[a] {
      assert forall j :: 0 <= j < |segs| ==> !InSegment(segs, at, j, a);
      LoadedLater(m, base, segs, at, 0, |segs|, a);
    }
  }

  // ---- the code --------------------------------------------------------------------------------------

  /** Memory and phys_alloc_start, once all of the segments have been processed. */
  ghost predicate Reached(was: Bytes, base: nat, segs: seq<Phdr>, start: nat, symtab: seq<nat>, rs: seq<Rela>,
                          now: Bytes, next: nat) {
    && SizesOk(segs) && start < TWO64 && next == Dest(Blocks(segs), start, |segs|)
    && Fits(segs, Places(segs, start), base, |was|)
    && TargetsFit(segs, Places(segs, start), symtab, rs, |was|)
    && (segs != [] ==> TableOk(symtab, rs))
    && now == if segs == [] then was else LoadedAndRelocated(was, base, segs, Places(segs, start), symtab, rs, |segs|)
  }

  /** The image after loading one segment and running the table, if it can be run. */
  ghost predicate IsNext(m: Bytes, base: nat, p: Phdr, dest: nat, symtab: seq<nat>, rs: seq<Rela>, m': Bytes)
    requires CanLoad(p, base, dest, |m|) && InMemory(SegMove(p, dest, symtab), rs, |m|)
  {
    AllSupported(SegMove(p, dest, symtab), rs)
    ==> m' == Relocated(LoadOne(m, base, p, dest), SegMove(p, dest, symtab), rs)
  }

  datatype Stage = Stage(mem: Bytes, next: nat)

  /** One turn of the program header loop can take memory and allocator from `st` to `st'`. */
  ghost predicate Turn(st: Stage, st': Stage, base: nat, p: Phdr, block: nat, symtab: seq<nat>, rs: seq<Rela>) {
    && st.next < TWO64 && p.memsz < TWO64 && st'.next == (st.next + block) % TWO64
    && CanLoad(p, base, st.next, |st.mem|) && InMemory(SegMove(p, st.next, symtab), rs, |st.mem|)
    && (AllSupported(SegMove(p, st.next, symtab), rs) <==> TableOk(symtab, rs))
    && IsNext(st.mem, base, p, st.next, symtab, rs, st'.mem)
  }

  /** The stages of a load. With an unsupported table it does not get past the first. */
  ghost predicate Turns(stages: seq<Stage>, base: nat, segs: seq<Phdr>, blocks: seq<nat>,
                        symtab: seq<nat>, rs: seq<Rela>) {
    && |stages| == |segs| + 1 && |blocks| == |segs|
    && forall n :: 0 <= n < |segs| && (n == 0 || TableOk(symtab, rs)) ==>
         Turn(stages[n], stages[n + 1], base, segs[n], blocks[n], symtab, rs)
  }

  lemma LoadStep(m: Bytes, base: nat, segs: seq<Phdr>, at: seq<nat>, symtab: seq<nat>, rs: seq<Rela>, n: nat)
    returns (now: Bytes, now': Bytes)
    requires Fits(segs, at, base, |m|) && n < |segs|
    requires TableOk(symtab, rs) && TargetsFit(segs, at, symtab, rs, |m|)
    ensures now == LoadedAndRelocated(m, base, segs, at, symtab, rs, n) && |now| == |m|
    ensures now' == LoadedAndRelocated(m, base, segs, at, symtab, rs, n + 1)
    ensures CanLoad(segs[n], base, at[n], |m|) && InMemory(SegMove(segs[n], at[n], symtab), rs, |m|)
    ensures IsNext(now, base, segs[n], at[n], symtab, rs, now')
  {
    now := LoadedAndRelocated(m, base, segs, at, symtab, rs, n);
    now' := LoadedAndRelocated(m, base, segs, at, symtab, rs, n + 1);
  }

  lemma TurnAt(m: Bytes, base: nat, segs: seq<Phdr>, blocks: seq<nat>, start: nat,
               symtab: seq<nat>, rs: seq<Rela>, n: nat)
    returns (st: Stage, st': Stage)
    requires |blocks| == |segs| && SizesOk(segs) && start < TWO64 && n < |segs|
    requires Fits(segs, Dests(blocks, start), base, |m|)
    requires TableOk(symtab, rs) && TargetsFit(segs, Dests(blocks, start), symtab, rs, |m|)
    ensures st.mem == LoadedAndRelocated(m, base, segs, Dests(blocks, start), symtab, rs, n)
    ensures st'.mem == LoadedAndRelocated(m, base, segs, Dests(blocks, start), symtab, rs, n + 1)
    ensures st.next == Dest(blocks, start, n) && st'.next == Dest(blocks, start, n + 1)
    ensures Turn(st, st', base, segs[n], blocks[n], symtab, rs)
  {
    var now, now' := LoadStep(m, base, segs, Dests(blocks, start), symtab, rs, n);
    TableOkForSegment(symtab, rs, segs[n], Dest(blocks, start, n));
    st, st' := Stage(now, Dest(blocks, start, n)), Stage(now', Dest(blocks, start, n + 1));
  }

  lemma StagesOf(m: Bytes, base: nat, segs: seq<Phdr>, blocks: seq<nat>, start: nat, symtab: seq<nat>, rs: seq<Rela>)
    returns (stages: seq<Stage>)
    requires |blocks| == |segs| && SizesOk(segs) && start < TWO64
    requires Fits(segs, Dests(blocks, start), base, |m|)
    requires TableOk(symtab, rs) && TargetsFit(segs, Dests(blocks, start), symtab, rs, |m|)
    ensures Turns(stages, base, segs, blocks, symtab, rs) && stages[0] == Stage(m, start)
    ensures stages[|segs|] == Stage(LoadedAndRelocated(m, base, segs, Dests(blocks, start), symtab, rs, |segs|),
                                Dest(blocks, start, |segs|))
  {
    stages := seq(|segs| + 1, n requires 0 <= n <= |segs| =>
      Stage(LoadedAndRelocated(m, base, segs, Dests(blocks, start), symtab, rs, n), Dest(blocks, start, n)));
    forall n | 0 <= n < |segs| ensures Turn(stages[n], stages[n + 1], base, segs[n], blocks[n], symtab, rs) {
      var st, st' := TurnAt(m, base, segs, blocks, start, symtab, rs, n);
    }
  }

  /** With an unsupported entry in the table the first turn is the last. */
  lemma StuckStages(m: Bytes, base: nat, segs: seq<Phdr>, blocks: seq<nat>, start: nat,
                    symtab: seq<nat>, rs: seq<Rela>)
    returns (stages: seq<Stage>)
    requires |blocks| == |segs| && SizesOk(segs) && start < TWO64
    requires Fits(segs, Dests(blocks, start), base, |m|)
    requires !TableOk(symtab, rs) && TargetsFit(segs, Dests(blocks, start), symtab, rs, |m|)
    ensures Turns(stages, base, segs, blocks, symtab, rs) && stages[0] == Stage(m, start)
  {
    stages := [Stage(m, start)];
    if segs != [] {
      TableOkForSegment(symtab, rs, segs[0], start);
      stages := stages + seq(|segs|, _ => Stage([], (start + blocks[0]) % TWO64));
      assert Dests(blocks, start)[0] == start;
    }
  }

  /** Copying the file bytes and clearing the rest is what loading a segment means. */
  lemma CopyAndFill(m: Bytes, base: nat, p: Phdr, dest: nat) returns (copied: Bytes, filled: Bytes)
    requires CanLoad(p, base, dest, |m|)
    ensures copied == Copied(m, dest, base + p.offset, p.filesz)
    ensures filled == Filled(copied, dest + p.filesz, p.memsz - p.filesz, 0) == LoadOne(m, base, p, dest)
  {
    copied := Copied(m, dest, base + p.offset, p.filesz);
    filled := Filled(copied, dest + p.filesz, p.memsz - p.filesz, 0);
    forall a | 0 <= a < |m| ensures filled[a] == LoadOne(m, base, p, dest)[a] {
      LoadOneAt(m, base, p, dest, a);
    }
  }

  /** Types 0, 1 and 8 only, and no symbol out of the table. */
  predicate KindsKnown(relaSection: Option<seq<Rela>>, symSection: Option<seq<nat>>) {
    relaSection.Some? && symSection.Some? ==>
      forall i :: 0 <= i < |relaSection.value| ==>
        var r := relaSection.value[i];
        r.kind == 0 || r.kind == 8 || (r.kind == 1 && r.sym < |symSection.value|)
  }

  /** What the load comes to with a relocation section and a symbol table, and without them. */
  ghost predicate ImageOk(was: Bytes, now: Bytes, base: nat, segs: seq<Phdr>, at: seq<nat>,
                          relaSection: Option<seq<Rela>>, symSection: Option<seq<nat>>)
    requires Fits(segs, at, base, |was|) && |now| == |was|
  {
    match (relaSection, symSection)
    case (Some(rs), Some(vs)) =>
      && (Congruent(segs, at) ==> ConstantsStored(now, segs, at, rs, vs))
      && (Congruent(segs, at) && Separate(segs, at, base) && WellLinked(segs, rs) ==>
            BytesLoaded(was, now, base, segs, at, rs))
    case _ => Separate(segs, at, base) ==> BytesLoaded(was, now, base, segs, at, [])
  }

  lemma ReachedImage(was: Bytes, base: nat, segs: seq<Phdr>, start: nat, relaSection: Option<seq<Rela>>,
                     symSection: Option<seq<nat>>, now: Bytes, next: nat)
    requires Reached(was, base, segs, start, Symbols(relaSection, symSection), Entries(relaSection, symSection),
               now, next)
    requires |was| <= TWO64
    ensures |now| == |was| && ImageOk(was, now, base, segs, Places(segs, start), relaSection, symSection)
  {
    var at := Places(segs, start);
    if segs == [] {
      assert BytesLoaded(was, now, base, segs, at, Entries(relaSection, symSection));
    } else if relaSection.Some? && symSection.Some? {
      var rs, vs := relaSection.value, symSection.value;
      if Congruent(segs, at) {
        var image := ConstantsAreStored(was, base, segs, at, vs, rs);
        if Separate(segs, at, base) && WellLinked(segs, rs) {
          image := BytesAreLoaded(was, base, segs, at, vs, rs);
        }
      }
    } else {
      NoTable(was, base, segs, at, Symbols(relaSection, symSection), |segs|);
      if Separate(segs, at, base) {
        BytesJustLoaded(was, base, segs, at);
      }
    }
  }

  class Bootloader {
    const mem: array<byte>
    var physAllocStart: nat

    constructor (mem: array<byte>, start: nat)
      ensures this.mem == mem && physAllocStart == start
    {
      this.mem, physAllocStart := mem, start;
    }

    method LinearAlloc(size: nat) returns (ret: nat)
      requires size < TWO64 && physAllocStart < TWO64
      modifies this
      ensures ret == old(physAllocStart)
      ensures physAllocStart == (ret + AllocSize(size)) % TWO64
    {
      var npages := (size + PAGE - 1) % TWO64 / PAGE % TWO32;
      ret := physAllocStart;
      physAllocStart := (physAllocStart + npages * PAGE % TWO32) % TWO64;
    }

    method LoadSegment(base: nat, p: Phdr, dest: nat)
      requires CanLoad(p, base, dest, mem.Length)
      modifies mem
      ensures mem[..] == LoadOne(old(mem[..]), base, p, dest)
    {
      ghost var copied, filled := CopyAndFill(mem[..], base, p, dest);
      Memcpy(mem, dest, base + p.offset, p.filesz);
      assert mem[..] == copied;
      Memset(mem, dest + p.filesz, 0, p.memsz - p.filesz);
      assert mem[..] == filled;
    }

    /** One PT_LOAD header: allocate, load, relocate. */
    method LoadAndRelocate(base: nat, p: Phdr, rela: seq<Rela>, symtab: seq<nat>, ghost after: Bytes)
      returns (ok: bool)
      requires p.memsz < TWO64 && physAllocStart < TWO64 && CanLoad(p, base, physAllocStart, mem.Length)
      requires InMemory(SegMove(p, physAllocStart, symtab), rela, mem.Length)
      requires IsNext(mem[..], base, p, physAllocStart, symtab, rela, after)
      modifies this, mem
      ensures ok == AllSupported(SegMove(p, old(physAllocStart), symtab), rela)
      ensures physAllocStart == (old(physAllocStart) + AllocSize(p.memsz)) % TWO64
      ensures ok ==> mem[..] == after
    {
      var dest := LinearAlloc(p.memsz);
      LoadSegment(base, p, dest);
      ghost var done;
      ok, done := Relocate(mem, SegMove(p, dest, symtab), rela);
      assert ok ==> rela[..done] == rela;
    }

    /** The body of the program header loop. */
    method LoadHeader(base: nat, p: Phdr, rela: seq<Rela>, symtab: seq<nat>, ghost st: Stage, ghost st': Stage)
      returns (ok: bool)
      requires mem[..] == st.mem && physAllocStart == st.next
      requires p.kind == PT_LOAD ==> p.memsz < TWO64 && Turn(st, st', base, p, AllocSize(p.memsz), symtab, rela)
      modifies this, mem
      ensures ok == (p.kind == PT_LOAD ==> TableOk(symtab, rela))
      ensures ok && p.kind == PT_LOAD ==> mem[..] == st'.mem && physAllocStart == st'.next
      ensures p.kind != PT_LOAD ==> mem[..] == st.mem && physAllocStart == st.next
    {
      ok := true;
      if p.kind == PT_LOAD {
        ok := LoadAndRelocate(base, p, rela, symtab, st'.mem);
      }
    }

    /** The program header loop. `ok` is false when the loader would have stopped at an unsupported
        relocation. Without both a relocation section and a symbol table nothing is relocated. */
    method ElfLoad(base: nat, phdrs: seq<Phdr>, relaSection: Option<seq<Rela>>, symSection: Option<seq<nat>>)
      returns (ok: bool)
      requires physAllocStart < TWO64 && SizesOk(Loads(phdrs))
      requires Fits(Loads(phdrs), Places(Loads(phdrs), physAllocStart), base, mem.Length)
      requires TargetsFit(Loads(phdrs), Places(Loads(phdrs), physAllocStart),
                 Symbols(relaSection, symSection), Entries(relaSection, symSection), mem.Length)
      modifies this, mem
      ensures ok <==> Loads(phdrs) == [] || KindsKnown(relaSection, symSection)
      ensures ok && mem.Length <= TWO64 ==> ImageOk(old(mem[..]), mem[..], base, Loads(phdrs),
                Places(Loads(phdrs), old(physAllocStart)), relaSection, symSection)
      ensures ok ==> Reached(old(mem[..]), base, Loads(phdrs), old(physAllocStart), Symbols(relaSection, symSection),
                Entries(relaSection, symSection), mem[..], physAllocStart)
    {
      var rela, symtab := Entries(relaSection, symSection), Symbols(relaSection, symSection);
      ghost var was, start := mem[..], physAllocStart;
      ghost var segs, count := CountLoads(phdrs);
      ghost var stages;
      if TableOk(symtab, rela) {
        stages := StagesOf(was, base, segs, Blocks(segs), start, symtab, rela);
      } else {
        stages := StuckStages(was, base, segs, Blocks(segs), start, symtab, rela);
      }
      ok := LoadAll(base, phdrs, rela, symtab, segs, count, stages);
      if ok && mem.Length <= TWO64 {
        ReachedImage(was, base, segs, start, relaSection, symSection, mem[..], physAllocStart);
      }
    }

    method LoadAll(base: nat, phdrs: seq<Phdr>, rela: seq<Rela>, symtab: seq<nat>,
                   ghost segs: seq<Phdr>, ghost count: seq<nat>, ghost stages: seq<Stage>)
      returns (ok: bool)
      requires Counts(phdrs, segs, count) && SizesOk(segs) && Turns(stages, base, segs, Blocks(segs), symtab, rela)
      requires stages[0] == Stage(mem[..], physAllocStart)
      modifies this, mem
      ensures ok == (segs == [] || TableOk(symtab, rela))
      ensures ok ==> stages[|segs|] == Stage(mem[..], physAllocStart)
    {
      for i := 0 to |phdrs|
        invariant count[i] <= |segs| && (count[i] > 0 ==> TableOk(symtab, rela))
        invariant stages[count[i]] == Stage(mem[..], physAllocStart)
      {
        ghost var st := stages[count[i]];
        ok := LoadHeader(base, phdrs[i], rela, symtab, st, if count[i] < |segs| then stages[count[i] + 1] else st);
        if !ok {
          return;
        }
      }
      ok := true;
    }
  }

  function Entries(rela: Option<seq<Rela>>, symtab: Option<seq<nat>>): (rs: seq<Rela>) {
    if rela.Some? && symtab.Some? then rela.value else []
  }

  function Symbols(rela: Option<seq<Rela>>, symtab: Option<seq<nat>>): (vs: seq<nat>) {
    if rela.Some? && symtab.Some? then symtab.value else []
  }
}
