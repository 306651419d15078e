/** elf64_relocate: applying a relocation table to an image in memory (types of section 4.4.1 of the
    AMD64 psABI, with RELATIVE adding to the value in place). All arithmetic is modulo 2^64. */
module Relocation {
  import opened Widths
  import opened Memory

  const R_X86_64_NONE: nat := 0
  const R_X86_64_64: nat := 1
  const R_X86_64_RELATIVE: nat := 8

  datatype Rela = Rela(offset: nat, kind: nat, sym: nat, addend: int)

  /** The parameters of one call. The table of symbol values is `symtab`. */
  datatype Move = Move(dst: int, src: int, symtab: seq<nat>, start: int, vbase: int)

  function Wrap(x: int): (r: nat)
    ensures r < TWO64
  {
    x % TWO64
  }

  function Target(mv: Move, r: Rela): (a: nat) {
    Wrap(mv.vbase + r.offset - mv.start)
  }

  /** The loader stops (eabort, or a failed assertion) at the first entry that is not supported. */
  predicate Supported(mv: Move, r: Rela) {
    r.kind == R_X86_64_NONE || (r.kind == R_X86_64_64 && r.sym < |mv.symtab|) || r.kind == R_X86_64_RELATIVE
  }

  predicate AllSupported(mv: Move, rs: seq<Rela>) {
    forall i :: 0 <= i < |rs| ==> Supported(mv, rs[i])
  }

  predicate InMemory(mv: Move, rs: seq<Rela>, size: nat) {
    forall i :: 0 <= i < |rs| && rs[i].kind != R_X86_64_NONE ==> Target(mv, rs[i]) + 8 <= size
  }

  function NewWord(mv: Move, r: Rela, was: nat): (v: nat)
    requires Supported(mv, r)
    ensures v < TWO64
  {
    if r.kind == R_X86_64_64 then Wrap(mv.dst - mv.start + mv.symtab[r.sym] + r.addend)
    else Wrap(was + (mv.dst - mv.src))
  }

  function RelocateOne(m: Bytes, mv: Move, r: Rela): (m': Bytes)
    requires Supported(mv, r) && (r.kind != R_X86_64_NONE ==> Target(mv, r) + 8 <= |m|)
    ensures |m'| == |m|
  {
    if r.kind == R_X86_64_NONE then m
    else SetWord(m, Target(mv, r), NewWord(mv, r, Word(m, Target(mv, r))))
  }

  function Relocated(m: Bytes, mv: Move, rs: seq<Rela>): (m': Bytes)
    requires AllSupported(mv, rs) && InMemory(mv, rs, |m|)
    ensures |m'| == |m|
  {
    if rs == [] then m
    else RelocateOne(Relocated(m, mv, rs[..|rs| - 1]), mv, rs[|rs| - 1])
  }

  lemma RelocatedSnoc(m: Bytes, mv: Move, rs: seq<Rela>, r: Rela)
    requires AllSupported(mv, rs + [r]) && InMemory(mv, rs + [r], |m|)
    ensures AllSupported(mv, rs) && InMemory(mv, rs, |m|)
    ensures Supported(mv, r) && (r.kind != R_X86_64_NONE ==> Target(mv, r) + 8 <= |m|)
    ensures Relocated(m, mv, rs + [r]) == RelocateOne(Relocated(m, mv, rs), mv, r)
  {
    var all := rs + [r];
    assert all[..|rs|] == rs && all[|rs|] == r;
    assert forall i :: 0 <= i < |rs| ==> all[i] == rs[i];
  }

  method ReadWord(mem: array<byte>, a: nat) returns (v: nat)
    requires a + 8 <= mem.Length
    ensures v == Word(mem[..], a)
  {
    v := FromLe(mem[a..a + 8]);
    assert mem[..][a..a + 8] == mem[a..a + 8];
  }

  method WriteWord(mem: array<byte>, a: nat, v: nat)
    requires a + 8 <= mem.Length
    modifies mem
    ensures mem[..] == SetWord(old(mem[..]), a, v)
  {
    var le := ToLe(v, 8);
    forall i | 0 <= i < 8 {
      mem[a + i] := le[i];
    }
  }

  /** The relocation loop, in place. On an unsupported entry it stops there, with the entries before
      it applied. */
  method Relocate(mem: array<byte>, mv: Move, rela: seq<Rela>) returns (ok: bool, ghost done: nat)
    requires InMemory(mv, rela, mem.Length)
    modifies mem
    ensures ok == AllSupported(mv, rela)
    ensures ok <==> forall i :: 0 <= i < |rela| ==>
              rela[i].kind == 0 || rela[i].kind == 8 || (rela[i].kind == 1 && rela[i].sym < |mv.symtab|)
    ensures ok && WordsApart(mv, rela) ==> WordsRelocated(old(mem[..]), mem[..], mv, rela)
    ensures done <= |rela| && AllSupported(mv, rela[..done])
    ensures if ok then done == |rela| else done < |rela| && !Supported(mv, rela[done])
    ensures InMemory(mv, rela[..done], mem.Length)
      && mem[..] == Relocated(old(mem[..]), mv, rela[..done])
  {
    done := 0;
    for i := 0 to |rela|
      invariant done == i && AllSupported(mv, rela[..i]) && InMemory(mv, rela[..i], mem.Length)
      invariant mem[..] == Relocated(old(mem[..]), mv, rela[..i])
    {
      var r := rela[i];
      assert rela[..i + 1] == rela[..i] + [r];
      if !Supported(mv, r) {
        return false, i;
      }
      if r.kind != R_X86_64_NONE {
        var addr := Target(mv, r);
        var was := ReadWord(mem, addr);
        WriteWord(mem, addr, NewWord(mv, r, was));
      }
      RelocatedSnoc(old(mem[..]), mv, rela[..i], r);
      done := i + 1;
    }
    assert rela[..|rela|] == rela;
    ok := true;
    if WordsApart(mv, rela) {
      ApartIsDisjoint(mv, rela);
      RelocatedWords(old(mem[..]), mv, rela);
    }
  }

  // ---- what a table with disjoint targets does -------------------------------------------------

  /** Byte `a` belongs to the target of some entry. */
  ghost predicate Covered(mv: Move, rs: seq<Rela>, a: int) {
    exists i :: 0 <= i < |rs| && rs[i].kind != R_X86_64_NONE && Target(mv, rs[i]) <= a < Target(mv, rs[i]) + 8
  }

  predicate Apart(mv: Move, r: Rela, q: Rela) {
    r.kind == R_X86_64_NONE || q.kind == R_X86_64_NONE
    || Target(mv, r) + 8 <= Target(mv, q) || Target(mv, q) + 8 <= Target(mv, r)
  }

  predicate Disjoint(mv: Move, rs: seq<Rela>) {
    forall i, j :: 0 <= i < j < |rs| ==> Apart(mv, rs[i], rs[j])
  }

  lemma {:induction false} UncoveredUnchanged(m: Bytes, mv: Move, rs: seq<Rela>, a: nat)
    requires AllSupported(mv, rs) && InMemory(mv, rs, |m|) && a < |m| && !Covered(mv, rs, a)
    ensures Relocated(m, mv, rs)[a] == m[a]
  {
    if rs != [] {
      var n := |rs| - 1;
      UncoveredUnchanged(m, mv, rs[..n], a);
    }
  }

  /** A word none of whose bytes is covered keeps its value. */
  lemma WordUnchanged(m: Bytes, mv: Move, rs: seq<Rela>, a: nat)
    requires AllSupported(mv, rs) && InMemory(mv, rs, |m|) && a + 8 <= |m|
    requires forall k :: a <= k < a + 8 ==> !Covered(mv, rs, k)
    ensures Word(Relocated(m, mv, rs), a) == Word(m, a)
  {
    forall k: nat | a <= k < a + 8 ensures Relocated(m, mv, rs)[k] == m[k] {
      UncoveredUnchanged(m, mv, rs, k);
    }
    WordIsBytes(m, Relocated(m, mv, rs), a);
  }

  lemma ApartUncovered(mv: Move, rs: seq<Rela>, r: Rela, k: int)
    requires r.kind != R_X86_64_NONE && Target(mv, r) <= k < Target(mv, r) + 8
    requires forall i :: 0 <= i < |rs| ==> Apart(mv, rs[i], r)
    ensures !Covered(mv, rs, k)
  {
  }

  lemma ApartKept(m: Bytes, mv: Move, r: Rela, q: Rela)
    requires Supported(mv, r) && (r.kind != R_X86_64_NONE ==> Target(mv, r) + 8 <= |m|)
    requires q.kind != R_X86_64_NONE && Target(mv, q) + 8 <= |m| && Apart(mv, q, r)
    ensures Word(RelocateOne(m, mv, r), Target(mv, q)) == Word(m, Target(mv, q))
  {
    WordIsBytes(m, RelocateOne(m, mv, r), Target(mv, q));
  }

  /** With disjoint targets every target word gets its value from the original image. */
  lemma {:induction false} TargetsRelocated(m: Bytes, mv: Move, rs: seq<Rela>, i: nat)
    requires AllSupported(mv, rs) && InMemory(mv, rs, |m|) && Disjoint(mv, rs)
    requires i < |rs| && rs[i].kind != R_X86_64_NONE
    ensures Word(Relocated(m, mv, rs), Target(mv, rs[i])) == NewWord(mv, rs[i], Word(m, Target(mv, rs[i])))
  {
    var n := |rs| - 1;
    var m1, a := Relocated(m, mv, rs[..n]), Target(mv, rs[i]);
    if i == n {
      forall k | a <= k < a + 8 ensures !Covered(mv, rs[..n], k) {
        ApartUncovered(mv, rs[..n], rs[i], k);
      }
      WordUnchanged(m, mv, rs[..n], a);
      WordOfSet(m1, a, NewWord(mv, rs[i], Word(m1, a)));
    } else {
      TargetsRelocated(m, mv, rs[..n], i);
      assert Apart(mv, rs[i], rs[n]);
      ApartKept(m1, mv, rs[n], rs[i]);
    }
  }

  /** Two images are equal when they agree off the targets and on every target word. */
  lemma SameImage(m: Bytes, m': Bytes, mv: Move, rs: seq<Rela>)
    requires |m| == |m'| && InMemory(mv, rs, |m|)
    requires forall a :: 0 <= a < |m| && !Covered(mv, rs, a) ==> m[a] == m'[a]
    requires forall i :: 0 <= i < |rs| && rs[i].kind != R_X86_64_NONE ==>
               Word(m, Target(mv, rs[i])) == Word(m', Target(mv, rs[i]))
    ensures m == m'
  {
    forall a | 0 <= a < |m| ensures m[a] == m'[a] {
      if Covered(mv, rs, a) {
        var i :| 0 <= i < |rs| && rs[i].kind != R_X86_64_NONE && Target(mv, rs[i]) <= a < Target(mv, rs[i]) + 8;
        var t := Target(mv, rs[i]);
        WordIsBytes(m, m', t);
        assert m[a] == m[t..t + 8][a - t] && m'[a] == m'[t..t + 8][a - t];
      }
    }
  }

  // ---- the words, written out --------------------------------------------------------------------

  predicate WordsApart(mv: Move, rs: seq<Rela>) {
    forall i, j :: 0 <= i < j < |rs| && rs[i].kind != 0 && rs[j].kind != 0 ==>
      var a := (mv.vbase + rs[i].offset - mv.start) % 0x1_0000_0000_0000_0000;
      var b := (mv.vbase + rs[j].offset - mv.start) % 0x1_0000_0000_0000_0000;
      a + 8 <= b || b + 8 <= a
  }

  /** Type 1 stores the moved symbol value plus the addend, type 8 adds the distance moved to the number in
      place. */
  predicate WordRelocated(was: Bytes, now: Bytes, mv: Move, r: Rela) {
    var a := (mv.vbase + r.offset - mv.start) % 0x1_0000_0000_0000_0000;
    && (r.kind == 1 ==> r.sym < |mv.symtab|)
    && (r.kind == 1 ==> Holds(now, a, (mv.dst - mv.start + mv.symtab[r.sym] + r.addend) % 0x1_0000_0000_0000_0000))
    && (r.kind == 8 ==> a + 8 <= |was|)
    && (r.kind == 8 ==> Holds(now, a, (NumberAt(was, a) + mv.dst - mv.src) % 0x1_0000_0000_0000_0000))
  }

  predicate WordsRelocated(was: Bytes, now: Bytes, mv: Move, rs: seq<Rela>) {
    forall i :: 0 <= i < |rs| ==> WordRelocated(was, now, mv, rs[i])
  }

  lemma WordHolds(m: Bytes, a: nat)
    requires a + 8 <= |m|
    ensures Holds(m, a, Word(m, a))
  {
    SetOfWord(m, a);
    SetWordHolds(m, a, Word(m, a));
  }

  /** Target and new value, in the source's own terms. */
  lemma EntryWord(was: Bytes, now: Bytes, mv: Move, r: Rela)
    requires Supported(mv, r) && (r.kind != R_X86_64_NONE ==> Target(mv, r) + 8 <= |was| == |now|)
    requires r.kind != R_X86_64_NONE ==> Word(now, Target(mv, r)) == NewWord(mv, r, NumberAt(was, Target(mv, r)))
    ensures WordRelocated(was, now, mv, r)
  {
    if r.kind != R_X86_64_NONE {
      WordHolds(now, Target(mv, r));
    }
  }

  lemma RelocatedWords(m: Bytes, mv: Move, rs: seq<Rela>)
    requires AllSupported(mv, rs) && InMemory(mv, rs, |m|) && Disjoint(mv, rs)
    ensures WordsRelocated(m, Relocated(m, mv, rs), mv, rs)
  {
    forall i | 0 <= i < |rs| ensures WordRelocated(m, Relocated(m, mv, rs), mv, rs[i]) {
      if rs[i].kind != R_X86_64_NONE {
        TargetsRelocated(m, mv, rs, i);
        WordIsNumber(m, Target(mv, rs[i]));
      }
      EntryWord(m, Relocated(m, mv, rs), mv, rs[i]);
    }
  }

  lemma ApartIsDisjoint(mv: Move, rs: seq<Rela>)
    requires WordsApart(mv, rs)
    ensures Disjoint(mv, rs)
  {
  }

  // ---- moving twice, and reordering --------------------------------------------------------------

  lemma WrapSum(w: int, a: int, b: int)
    ensures Wrap(Wrap(w + a) + b) == Wrap(w + a + b)
  {
  }

  lemma WordPath(r: Rela, w: nat, once: Move, there: Move, on: Move)
    requires Supported(once, r) && r.kind != R_X86_64_NONE && Legs(once, there, on)
    ensures NewWord(on, r, NewWord(there, r, w)) == NewWord(once, r, w)
  {
    WrapSum(w, there.dst - there.src, on.dst - on.src);
  }

  /** `there` and then `on` lead where `once` leads, over the same image. */
  predicate Legs(once: Move, there: Move, on: Move) {
    && there == once.(dst := there.dst)
    && on == once.(src := there.dst)
  }

  lemma PathOnTarget(m: Bytes, m1: Bytes, m2: Bytes, m3: Bytes, r: Rela, t: nat, once: Move, there: Move, on: Move)
    requires Legs(once, there, on) && Supported(once, r) && r.kind != R_X86_64_NONE
    requires |m| == |m1| == |m2| == |m3| && t + 8 <= |m|
    requires Word(m1, t) == NewWord(there, r, Word(m, t))
    requires Word(m2, t) == NewWord(on, r, Word(m1, t))
    requires Word(m3, t) == NewWord(once, r, Word(m, t))
    ensures Word(m2, t) == Word(m3, t)
  {
    WordPath(r, Word(m, t), once, there, on);
  }

  /** Relocating to an intermediate address and on from there is relocating once. */
  lemma PathIndependence(m: Bytes, rs: seq<Rela>, once: Move, there: Move, on: Move)
    requires Legs(once, there, on)
    requires AllSupported(once, rs) && InMemory(once, rs, |m|) && Disjoint(once, rs)
    ensures AllSupported(there, rs) && InMemory(there, rs, |m|) && AllSupported(on, rs) && InMemory(on, rs, |m|)
    ensures Relocated(Relocated(m, there, rs), on, rs) == Relocated(m, once, rs)
  {
    SameTable(once, there, rs, |m|);
    SameTable(once, on, rs, |m|);
    var m1 := Relocated(m, there, rs);
    var m2, m3 := Relocated(m1, on, rs), Relocated(m, once, rs);
    forall a: nat | a < |m| && !Covered(once, rs, a) ensures m2[a] == m3[a] {
      assert !Covered(there, rs, a) && !Covered(on, rs, a);
      UncoveredUnchanged(m, there, rs, a);
      UncoveredUnchanged(m1, on, rs, a);
      UncoveredUnchanged(m, once, rs, a);
    }
    forall i | 0 <= i < |rs| && rs[i].kind != R_X86_64_NONE
      ensures Word(m2, Target(once, rs[i])) == Word(m3, Target(once, rs[i]))
    {
      TargetsRelocated(m, there, rs, i);
      TargetsRelocated(m1, on, rs, i);
      TargetsRelocated(m, once, rs, i);
      PathOnTarget(m, m1, m2, m3, rs[i], Target(once, rs[i]), once, there, on);
    }
    SameImage(m2, m3, once, rs);
  }

  /** Targets, support and disjointness depend on neither end of the move. */
  lemma SameTable(mv: Move, mv': Move, rs: seq<Rela>, size: nat)
    requires mv'.symtab == mv.symtab && mv'.start == mv.start && mv'.vbase == mv.vbase
    ensures forall r :: Target(mv', r) == Target(mv, r)
    ensures AllSupported(mv, rs) ==> AllSupported(mv', rs)
    ensures InMemory(mv, rs, size) ==> InMemory(mv', rs, size)
    ensures Disjoint(mv, rs) ==> Disjoint(mv', rs)
  {
    if Disjoint(mv, rs) {
      forall i, j | 0 <= i < j < |rs| ensures Apart(mv', rs[i], rs[j]) {
        assert Apart(mv, rs[i], rs[j]);
      }
    }
  }

  lemma FirstIndex<T>(s: seq<T>, x: T) returns (i: nat)
    requires x in s
    ensures i < |s| && s[i] == x
  {
    i :| i < |s| && s[i] == x;
  }

  /** An element that occurs twice has two places. */
  lemma TwoPlaces<T>(s: seq<T>, x: T) returns (i: nat, j: nat)
    requires multiset(s)[x] >= 2
    ensures i < j < |s| && s[i] == x && s[j] == x
  {
    assert x in multiset(s);
    i :| i < |s| && s[i] == x;
    var rest := s[..i] + s[i + 1..];
    assert s == s[..i] + [x] + s[i + 1..];
    assert multiset(s) == multiset(rest) + multiset{x};
    assert x in multiset(rest);
    var k :| 0 <= k < |rest| && rest[k] == x;
    if k < i {
      i, j := k, i;
    } else {
      j := k + 1;
    }
  }

  lemma OccursTwice<T>(s: seq<T>, i: nat, j: nat)
    requires i < j < |s| && s[i] == s[j]
    ensures multiset(s)[s[i]] >= 2
  {
    assert s == s[..i] + [s[i]] + s[i + 1..j] + [s[j]] + s[j + 1..];
  }

  lemma DisjointReordered(mv: Move, rs: seq<Rela>, rs': seq<Rela>)
    requires multiset(rs) == multiset(rs') && Disjoint(mv, rs)
    ensures Disjoint(mv, rs')
  {
    forall i, j | 0 <= i < j < |rs'| ensures Apart(mv, rs'[i], rs'[j]) {
      var k, l;
      if rs'[i] == rs'[j] {
        OccursTwice(rs', i, j);
        k, l := TwoPlaces(rs, rs'[i]);
      } else {
        assert rs'[i] in multiset(rs') && rs'[j] in multiset(rs');
        k := FirstIndex(rs, rs'[i]);
        l := FirstIndex(rs, rs'[j]);
      }
      assert Apart(mv, rs[if k < l then k else l], rs[if k < l then l else k]);
    }
  }

  lemma SameElements(rs: seq<Rela>, rs': seq<Rela>)
    requires multiset(rs) == multiset(rs')
    ensures forall r :: r in rs <==> r in rs'
  {
    assert forall r :: r in rs <==> r in multiset(rs);
    assert forall r :: r in rs' <==> r in multiset(rs');
  }

  lemma CoveredReordered(mv: Move, rs: seq<Rela>, rs': seq<Rela>, a: int)
    requires multiset(rs) == multiset(rs') && Covered(mv, rs', a)
    ensures Covered(mv, rs, a)
  {
    SameElements(rs, rs');
    var i :| 0 <= i < |rs'| && rs'[i].kind != R_X86_64_NONE && Target(mv, rs'[i]) <= a < Target(mv, rs'[i]) + 8;
    assert rs'[i] in rs';
    var k := FirstIndex(rs, rs'[i]);
  }

  /** The order of a table with disjoint targets does not matter. */
  lemma OrderIndependence(m: Bytes, mv: Move, rs: seq<Rela>, rs': seq<Rela>)
    requires multiset(rs) == multiset(rs')
    requires AllSupported(mv, rs) && InMemory(mv, rs, |m|) && Disjoint(mv, rs)
    ensures AllSupported(mv, rs') && InMemory(mv, rs', |m|)
    ensures Relocated(m, mv, rs') == Relocated(m, mv, rs)
  {
    SameElements(rs, rs');
    DisjointReordered(mv, rs, rs');
    forall i | 0 <= i < |rs'|
      ensures Supported(mv, rs'[i])
      ensures rs'[i].kind != R_X86_64_NONE ==> Target(mv, rs'[i]) + 8 <= |m|
    {
      assert rs'[i] in rs';
      var k := FirstIndex(rs, rs'[i]);
    }
    var m1, m2 := Relocated(m, mv, rs'), Relocated(m, mv, rs);
    forall a: nat | a < |m| && !Covered(mv, rs, a) ensures m1[a] == m2[a] {
      if Covered(mv, rs', a) {
        CoveredReordered(mv, rs, rs', a);
      }
      UncoveredUnchanged(m, mv, rs', a);
      UncoveredUnchanged(m, mv, rs, a);
    }
    forall i | 0 <= i < |rs| && rs[i].kind != R_X86_64_NONE
      ensures Word(m1, Target(mv, rs[i])) == Word(m2, Target(mv, rs[i]))
    {
      assert rs[i] in rs;
      var k := FirstIndex(rs', rs[i]);
      TargetsRelocated(m, mv, rs', k);
      TargetsRelocated(m, mv, rs, i);
    }
    SameImage(m1, m2, mv, rs);
  }

  // ---- relocating in place to the same address -------------------------------------------------

  /** Equal except, perhaps, within the words that the table overwrites with constants. */
  ghost predicate AgreeOffTargets(m: Bytes, m': Bytes, mv: Move, rs: seq<Rela>) {
    && |m| == |m'|
    && forall a :: 0 <= a < |m| && !Overwritten(mv, rs, a) ==> m[a] == m'[a]
  }

  ghost predicate Overwritten(mv: Move, rs: seq<Rela>, a: int) {
    exists i :: 0 <= i < |rs| && rs[i].kind == R_X86_64_64 && Target(mv, rs[i]) <= a < Target(mv, rs[i]) + 8
  }

  /** Agreement off the targets of `later` survives running `rs`, and grows by the targets of `rs`. */
  lemma {:induction false} AgreementGrows(m: Bytes, m': Bytes, mv: Move, rs: seq<Rela>, later: seq<Rela>)
    requires mv.dst == mv.src && AllSupported(mv, rs) && InMemory(mv, rs, |m|)
    requires AgreeOffTargets(m, m', mv, rs + later)
    ensures AgreeOffTargets(Relocated(m, mv, rs), Relocated(m', mv, rs), mv, later)
    decreases |rs|
  {
    if rs == [] {
      assert rs + later == later;
    } else {
      var n := |rs| - 1;
      var r := rs[n];
      assert rs + later == rs[..n] + ([r] + later);
      AgreementGrows(m, m', mv, rs[..n], [r] + later);
      OneForgets(Relocated(m, mv, rs[..n]), Relocated(m', mv, rs[..n]), mv, r, later);
    }
  }

  /** Whatever the entry would overwrite later, or overwrites now. */
  lemma OverwrittenByOne(mv: Move, r: Rela, later: seq<Rela>, a: int)
    requires Overwritten(mv, [r] + later, a)
    ensures Overwritten(mv, later, a) || (r.kind == R_X86_64_64 && Target(mv, r) <= a < Target(mv, r) + 8)
  {
    var all := [r] + later;
    var i :| 0 <= i < |all| && all[i].kind == R_X86_64_64 && Target(mv, all[i]) <= a < Target(mv, all[i]) + 8;
    assert i > 0 ==> later[i - 1] == all[i];
  }

  /** An entry that does not write a constant leaves an image moved onto itself as it was. */
  lemma OneIsIdentity(m: Bytes, mv: Move, r: Rela)
    requires mv.dst == mv.src && Supported(mv, r) && (r.kind != R_X86_64_NONE ==> Target(mv, r) + 8 <= |m|)
    requires r.kind != R_X86_64_64
    ensures RelocateOne(m, mv, r) == m
  {
    if r.kind == R_X86_64_RELATIVE {
      var w := Word(m, Target(mv, r));
      assert NewWord(mv, r, w) == w;
      SetOfWord(m, Target(mv, r));
    }
  }

  lemma OneForgets(m: Bytes, m': Bytes, mv: Move, r: Rela, later: seq<Rela>)
    requires mv.dst == mv.src && Supported(mv, r) && (r.kind != R_X86_64_NONE ==> Target(mv, r) + 8 <= |m|)
    requires AgreeOffTargets(m, m', mv, [r] + later)
    ensures AgreeOffTargets(RelocateOne(m, mv, r), RelocateOne(m', mv, r), mv, later)
  {
    var t := Target(mv, r);
    var m1, m1' := RelocateOne(m, mv, r), RelocateOne(m', mv, r);
    if r.kind == R_X86_64_64 {
      SameWordSet(m, m', t, NewWord(mv, r, 0));
    } else {
      OneIsIdentity(m, mv, r);
      OneIsIdentity(m', mv, r);
    }
    forall a | 0 <= a < |m| && !Overwritten(mv, later, a) ensures m1[a] == m1'[a] {
      if Overwritten(mv, [r] + later, a) {
        OverwrittenByOne(mv, r, later, a);
      }
    }
  }

  lemma SameWordSet(m: Bytes, m': Bytes, t: nat, v: nat)
    requires |m| == |m'| && t + 8 <= |m|
    ensures forall a :: t <= a < t + 8 ==> SetWord(m, t, v)[a] == SetWord(m', t, v)[a] == ToLe(v, 8)[a - t]
  {
  }

  /** When dst == src, RELATIVE entries change nothing and the others write constants. So running
      the table makes images equal that differed only where it writes - whatever the order and
      overlaps of its entries. */
  lemma RelocatedForgets(m: Bytes, m': Bytes, mv: Move, rs: seq<Rela>)
    requires mv.dst == mv.src && AllSupported(mv, rs) && InMemory(mv, rs, |m|)
    requires AgreeOffTargets(m, m', mv, rs)
    ensures Relocated(m, mv, rs) == Relocated(m', mv, rs)
  {
    assert rs + [] == rs;
    AgreementGrows(m, m', mv, rs, []);
    assert forall a :: !Overwritten(mv, [], a);
  }
}
