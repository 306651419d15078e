/** inky/loader.c around elf64_load: the move of the ramdisk, the virtual base of the kernel and the
    translation of its entry point. */
module Loader {
  import opened Wrappers
  import opened Widths
  import opened Memory
  import opened Relocation
  import opened ElfLoader

  const KERNEL_START: nat := 0x100_0000

  // ---- the ramdisk move ------------------------------------------------------------------------

  /** The bounce address is computed in uint32_t. */
  function Bounce(image: nat, size: nat): (a: nat) {
    (image + size + PAGE) % TWO32
  }

  /** The branch that goes through a bounce area. */
  predicate NeedsBounce(start: nat, image: nat, size: nat) {
    start + size > image
  }

  /** memcpy's assertion holds for every copy of the move from `image` to `start`. */
  predicate MoveOk(start: nat, image: nat, size: nat) {
    if NeedsBounce(start, image, size) then
      NoOverlap(Bounce(image, size), image, size) && NoOverlap(start, Bounce(image, size), size)
    else NoOverlap(start, image, size)
  }

  /** When the bounce area does not wrap around 4 GiB, the assertions hold exactly when the target is
      either at most one page past the ramdisk or past the bounce area as well; only an empty ramdisk
      that is already in place, or whose bounce address is the target, trips them otherwise. */
  lemma MoveOkIff(start: nat, image: nat, size: nat)
    requires image + size + PAGE < TWO32
    ensures MoveOk(start, image, size) <==>
      if size > 0 then start <= image + PAGE || start >= image + 2 * size + PAGE
      else start != image && start != image + PAGE
  {
    assert Bounce(image, size) == image + size + PAGE;
  }

  /** When it wraps, the copies are safe exactly when the wrapped bounce area lies below the ramdisk
      and the target is not in it. */
  lemma MoveOkWrappedIff(start: nat, image: nat, size: nat)
    requires image < TWO32 && 0 < size < TWO32 - PAGE && image + size + PAGE >= TWO32
    requires NeedsBounce(start, image, size)
    ensures MoveOk(start, image, size) <==>
      2 * size + PAGE <= TWO32 && image + 2 * size + PAGE <= TWO32 + start
  {
    assert Bounce(image, size) == image + size + PAGE - TWO32;
  }

  lemma HopArrives(m: Bytes, dst: nat, src: nat, size: nat)
    requires dst + size <= |m| && src + size <= |m|
    ensures Copied(m, dst, src, size)[dst..dst + size] == m[src..src + size]
  {
  }

  /** The move of the multiboot image. Its bytes arrive, and nothing changes but the target and, on the
      branch that uses it, the bounce area. */
  method MoveRamdisk(mem: array<byte>, start: nat, image: nat, size: nat) returns (orig: nat)
    requires image < TWO32 && size < TWO32 && MoveOk(start, image, size)
    requires start + size <= mem.Length && image + size <= mem.Length && Bounce(image, size) + size <= mem.Length
    modifies mem
    ensures orig == if NeedsBounce(start, image, size) then Bounce(image, size) else image
    ensures mem[start..start + size] == old(mem[image..image + size])
    ensures forall i :: 0 <= i < mem.Length ==>
              start <= i < start + size || (orig != image && orig <= i < orig + size) || mem[i] == old(mem[i])
  {
    orig := image;
    ghost var m := mem[..];
    if start + size > image {
      orig := (image + size + PAGE) % TWO32;
      Memcpy(mem, orig, image, size);
      HopArrives(m, orig, image, size);
    }
    ghost var m1 := mem[..];
    Memcpy(mem, start, orig, size);
    HopArrives(m1, start, orig, size);
    assert mem[start..start + size] == mem[..][start..start + size];
    assert m[image..image + size] == old(mem[image..image + size]);
    forall i | 0 <= i < mem.Length && !(start <= i < start + size) && !(orig != image && orig <= i < orig + size)
      ensures mem[i] == m[i]
    {
      assert mem[..][i] == m1[i];
    }
  }

  // ---- elf_virtual_base64 ------------------------------------------------------------------------

  /** The loop's value after the addresses `vs`: zero stands for "none yet". */
  function BaseOf(vs: seq<nat>): (base: nat) {
    if vs == [] then 0
    else
      var r, v := BaseOf(vs[..|vs| - 1]), vs[|vs| - 1];
      if r == 0 || v < r then v else r
  }

  ghost predicate IsLeast(x: nat, vs: seq<nat>) {
    x in vs && forall i :: 0 <= i < |vs| ==> x <= vs[i]
  }

  lemma {:induction false} BaseOfNonZero(vs: seq<nat>)
    requires vs != [] && 0 !in vs
    ensures IsLeast(BaseOf(vs), vs) && BaseOf(vs) > 0
  {
    var n := |vs| - 1;
    assert vs[n] in vs;
    if n > 0 {
      assert forall i :: 0 <= i < n ==> vs[..n][i] in vs;
      BaseOfNonZero(vs[..n]);
    }
  }

  /** The base is the least address exactly when no segment is linked at 0, or the last one is: a zero
      address is mistaken for "none yet" by the next segment. */
  lemma BaseIsLeastIff(vs: seq<nat>)
    requires vs != []
    ensures IsLeast(BaseOf(vs), vs) <==> (0 in vs ==> vs[|vs| - 1] == 0)
  {
    if 0 in vs {
      var i :| 0 <= i < |vs| && vs[i] == 0;
      assert BaseOf(vs) == 0 <==> vs[|vs| - 1] == 0;
    } else {
      BaseOfNonZero(vs);
    }
  }

  function Vaddrs(segs: seq<Phdr>): (vs: seq<nat>)
    ensures |vs| == |segs|
  {
    seq(|segs|, i requires 0 <= i < |segs| => segs[i].vaddr)
  }

  lemma BaseOfSnoc(segs: seq<Phdr>, p: Phdr)
    ensures var r := BaseOf(Vaddrs(segs));
            BaseOf(Vaddrs(segs + [p])) == if r == 0 || p.vaddr < r then p.vaddr else r
  {
    assert Vaddrs(segs + [p]) == Vaddrs(segs) + [p.vaddr];
    assert (Vaddrs(segs) + [p.vaddr])[..|segs|] == Vaddrs(segs);
  }

  method ElfVirtualBase(phdrs: seq<Phdr>) returns (retval: nat)
    ensures retval == BaseOf(Vaddrs(Loads(phdrs)))
  {
    retval := 0;
    for i := 0 to |phdrs|
      invariant retval == BaseOf(Vaddrs(Loads(phdrs[..i])))
    {
      var p := phdrs[i];
      assert phdrs[..i + 1][..i] == phdrs[..i];
      assert Loads(phdrs[..i + 1]) == if p.kind == PT_LOAD then Loads(phdrs[..i]) + [p] else Loads(phdrs[..i]);
      if p.kind == PT_LOAD {
        BaseOfSnoc(Loads(phdrs[..i]), p);
        if retval == 0 {
          retval := p.vaddr;
        }
        retval := if p.vaddr < retval then p.vaddr else retval;
      }
    }
    assert phdrs[..|phdrs|] == phdrs;
  }

  // ---- the entry point ---------------------------------------------------------------------------

  function KernelEntry(entry: nat, elfbase: nat, kernelStart: nat): (e: nat) {
    Wrap(entry - elfbase + kernelStart)
  }

  /** Where segment i's copy of the byte linked at `v` is. */
  function CopyOf(segs: seq<Phdr>, at: seq<nat>, i: nat, v: nat): (a: nat)
    requires i < |segs| == |at| && segs[i].vaddr <= v
  {
    Wrap(at[i] + (v - segs[i].vaddr))
  }

  /** In a layout that keeps distances, the translation finds the loaded copy of any address in any
      segment exactly when the base it subtracts is the first segment's address. */
  lemma EntryIsCopyIff(segs: seq<Phdr>, at: seq<nat>, elfbase: nat, i: nat, v: nat)
    requires Congruent(segs, at) && i < |segs| && segs[i].vaddr <= v
    requires elfbase < TWO64 && segs[0].vaddr < TWO64
    ensures KernelEntry(v, elfbase, at[0]) == CopyOf(segs, at, i, v) <==> elfbase == segs[0].vaddr
  {
    assert Shift(segs, at, i) == Shift(segs, at, 0);
    ShiftedSum(at[i], segs[i].vaddr, v);
    ShiftedSum(at[0], segs[0].vaddr, v + segs[0].vaddr - elfbase);
    ShiftIff(Shift(segs, at, 0) + v, segs[0].vaddr - elfbase);
  }

  lemma ShiftedSum(a: int, b: int, v: int)
    ensures Wrap(a + (v - b)) == Wrap(Wrap(a - b) + v)
  {
  }

  lemma ShiftIff(x: int, d: int)
    requires -d < TWO64 && d < TWO64
    ensures Wrap(x + d) == Wrap(x) <==> d == 0
  {
  }

  /** The first segment's address is the base the loader computes, when addresses ascend from a
      non-zero one. */
  lemma AscendingBase(segs: seq<Phdr>)
    requires segs != [] && 0 < segs[0].vaddr
    requires forall i :: 0 <= i < |segs| ==> segs[0].vaddr <= segs[i].vaddr
    ensures BaseOf(Vaddrs(segs)) == segs[0].vaddr
  {
    BaseOfNonZero(Vaddrs(segs));
    assert Vaddrs(segs)[0] == segs[0].vaddr;
  }

  /** Segments ascending from a non-zero address. */
  predicate Ascending(segs: seq<Phdr>) {
    segs != [] && 0 < segs[0].vaddr < TWO64 && forall k :: 0 <= k < |segs| ==> segs[0].vaddr <= segs[k].vaddr
  }

  lemma EntryPlace(segs: seq<Phdr>, at: seq<nat>, i: nat, entry: nat)
    requires Congruent(segs, at) && Ascending(segs)
    requires i < |segs| && segs[i].vaddr <= entry && at[i] + (entry - segs[i].vaddr) < TWO64
    ensures KernelEntry(entry, BaseOf(Vaddrs(segs)), at[0]) == at[i] + (entry - segs[i].vaddr)
  {
    AscendingBase(segs);
    EntryIsCopyIff(segs, at, segs[0].vaddr, i, entry);
  }

  /** kernel_entry addresses the loaded copy of the byte at e_entry: that byte of the file, if no
      relocation constant was written over it. */
  lemma EntryAddressesLoadedByte(m: Bytes, base: nat, segs: seq<Phdr>, at: seq<nat>, symtab: seq<nat>, rs: seq<Rela>,
                                 i: nat, entry: nat)
    returns (e: nat)
    requires Congruent(segs, at) && Separate(segs, at, base) && Ascending(segs) && |m| <= TWO64
    requires Fits(segs, at, base, |m|) && TableOk(symtab, rs) && TargetsFit(segs, at, symtab, rs, |m|)
    requires FileIntact(segs, base, FirstMove(segs, at, symtab), rs)
    requires i < |segs| && segs[i].vaddr <= entry < segs[i].vaddr + segs[i].memsz
    requires !Overwritten(FirstMove(segs, at, symtab), rs, at[i] + (entry - segs[i].vaddr))
    ensures e == KernelEntry(entry, BaseOf(Vaddrs(segs)), at[0]) == at[i] + (entry - segs[i].vaddr) < |m|
    ensures LoadedAndRelocated(m, base, segs, at, symtab, rs, |segs|)[e]
         == SegmentByte(m, base, segs[i], entry - segs[i].vaddr)
  {
    e := at[i] + (entry - segs[i].vaddr);
    EntryPlace(segs, at, i, entry);
    CopyHoldsFileByte(m, base, segs, at, symtab, rs, i, entry - segs[i].vaddr);
  }

  /** With the loader's own allocator, starting at 16 MiB, a file laid out page by page is placed
      congruently, and its segments neither overlap nor leave their order. */
  lemma LinearPlacement(segs: seq<Phdr>, start: nat)
    requires SizesOk(segs) && |segs| < 0x1_0000 && start % PAGE == 0 && start < TWO64 / 2
    requires Contiguous(segs, Blocks(segs)) && forall k :: 0 <= k < |segs| ==> segs[k].memsz <= TWO32 - PAGE
    ensures Congruent(segs, Places(segs, start))
    ensures segs != [] ==> Places(segs, start)[0] == start
    ensures forall i, j :: 0 <= i < j < |segs| ==>
              Places(segs, start)[i] + segs[i].memsz <= Places(segs, start)[j]
  {
    CongruentIffContiguous(segs, start);
    forall i, j | 0 <= i < j < |segs|
      ensures Places(segs, start)[i] + segs[i].memsz <= Places(segs, start)[j]
    {
      AllocationsDisjoint(segs, start, i, j);
    }
  }

  /** What the file has to promise: page after page, upwards from a non-zero address, with no block of
      4 GiB, and segment i holding the entry point where no relocation constant is written. */
  ghost predicate EntersSegment(segs: seq<Phdr>, base: nat, symtab: seq<nat>, rs: seq<Rela>, i: nat, entry: nat) {
    && SizesOk(segs) && |segs| < 0x1_0000 && (forall k :: 0 <= k < |segs| ==> segs[k].memsz <= TWO32 - PAGE)
    && Ascending(segs) && Contiguous(segs, Blocks(segs))
    && i < |segs| && segs[i].vaddr <= entry < segs[i].vaddr + segs[i].memsz
    && var at := Places(segs, KERNEL_START); var mv := FirstMove(segs, at, symtab);
       && FileApart(segs, at, base) && FileIntact(segs, base, mv, rs)
       && !Overwritten(mv, rs, at[i] + (entry - segs[i].vaddr))
  }

  /** Then the byte at the translated entry point is the one the file has at e_entry. */
  lemma EntryByte(m: Bytes, base: nat, segs: seq<Phdr>, symtab: seq<nat>, rs: seq<Rela>, i: nat, entry: nat,
                  now: Bytes, next: nat)
    requires Reached(m, base, segs, KERNEL_START, symtab, rs, now, next) && |m| <= TWO64
    ensures EntersSegment(segs, base, symtab, rs, i, entry)
      ==> EntryHolds(m, now, base, segs[i], entry, KernelEntry(entry, BaseOf(Vaddrs(segs)), KERNEL_START))
  {
    if EntersSegment(segs, base, symtab, rs, i, entry) {
      LinearPlacement(segs, KERNEL_START);
      var e := EntryHeld(m, base, segs, Places(segs, KERNEL_START), symtab, rs, i, entry);
    }
  }

  lemma EntryHeld(m: Bytes, base: nat, segs: seq<Phdr>, at: seq<nat>, symtab: seq<nat>, rs: seq<Rela>,
                  i: nat, entry: nat)
    returns (e: nat)
    requires Congruent(segs, at) && Separate(segs, at, base) && Ascending(segs) && |m| <= TWO64
    requires Fits(segs, at, base, |m|) && TableOk(symtab, rs) && TargetsFit(segs, at, symtab, rs, |m|)
    requires FileIntact(segs, base, FirstMove(segs, at, symtab), rs)
    requires i < |segs| && segs[i].vaddr <= entry < segs[i].vaddr + segs[i].memsz
    requires !Overwritten(FirstMove(segs, at, symtab), rs, at[i] + (entry - segs[i].vaddr))
    ensures e == KernelEntry(entry, BaseOf(Vaddrs(segs)), at[0])
    ensures EntryHolds(m, LoadedAndRelocated(m, base, segs, at, symtab, rs, |segs|), base, segs[i], entry, e)
  {
    e := EntryAddressesLoadedByte(m, base, segs, at, symtab, rs, i, entry);
    SegmentByteIs(m, base, segs[i], entry - segs[i].vaddr);
  }

  /** The byte at `e` is the file's at `entry`, or zero past the file's part of the segment. */
  predicate EntryHolds(was: Bytes, now: Bytes, base: nat, p: Phdr, entry: nat, e: nat) {
    && p.vaddr <= entry && e < |now|
    && var b := entry - p.vaddr;
       if b < p.filesz then base + p.offset + b < |was| && now[e] == was[base + p.offset + b] else now[e] == 0
  }

  /** The tail of loader(): load the kernel from 16 MiB on and translate its entry point. */
  method LoadKernel(boot: Bootloader, base: nat, phdrs: seq<Phdr>, entry: nat,
                    rela: Option<seq<Rela>>, symtab: Option<seq<nat>>, ghost i: nat)
    returns (ok: bool, kernelEntry: nat)
    requires boot.mem.Length <= TWO64
    requires SizesOk(Loads(phdrs)) && Fits(Loads(phdrs), Places(Loads(phdrs), KERNEL_START), base, boot.mem.Length)
    requires TargetsFit(Loads(phdrs), Places(Loads(phdrs), KERNEL_START),
               Symbols(rela, symtab), Entries(rela, symtab), boot.mem.Length)
    modifies boot, boot.mem
    ensures ok <==> Loads(phdrs) == [] || KindsKnown(rela, symtab)
    ensures ok ==> kernelEntry == KernelEntry(entry, BaseOf(Vaddrs(Loads(phdrs))), KERNEL_START)
    ensures ok ==> Reached(old(boot.mem[..]), base, Loads(phdrs), KERNEL_START, Symbols(rela, symtab),
              Entries(rela, symtab), boot.mem[..], boot.physAllocStart)
    ensures ok && EntersSegment(Loads(phdrs), base, Symbols(rela, symtab), Entries(rela, symtab), i, entry)
      ==> EntryHolds(old(boot.mem[..]), boot.mem[..], base, Loads(phdrs)[i], entry, kernelEntry)
  {
    ghost var was, segs, rs, vs := boot.mem[..], Loads(phdrs), Entries(rela, symtab), Symbols(rela, symtab);
    boot.physAllocStart := KERNEL_START;
    ok := boot.ElfLoad(base, phdrs, rela, symtab);
    var elfbase := ElfVirtualBase(phdrs);
    kernelEntry := KernelEntry(entry, elfbase, KERNEL_START);
    if ok {
      EntryByte(was, base, segs, vs, rs, i, entry, boot.mem[..], boot.physAllocStart);
    }
  }
}
