/** Physical memory as a flat sequence of bytes, little-endian words in it, and inky/lib.c's memcpy
    and memset on it. */
module Memory {
  import opened Widths

  newtype byte = x: int | 0 <= x < 256
  type Bytes = seq<byte>

  const PAGE: nat := 0x1000

  // ---- words ---------------------------------------------------------------------------------

  function Pow256(n: nat): (p: nat)
    ensures p > 0
  {
    if n == 0 then 1 else 256 * Pow256(n - 1)
  }

  lemma Pow256Of8()
    ensures Pow256(8) == TWO64
  {
    assert Pow256(2) == 0x1_0000;
    assert Pow256(4) == 0x1_0000_0000;
    assert Pow256(6) == 0x1_0000_0000_0000;
  }

  function FromLe(s: Bytes): (v: nat)
    ensures v < Pow256(|s|)
  {
    if s == [] then 0 else s[0] as nat + 256 * FromLe(s[1..])
  }

  function ToLe(v: nat, n: nat): (s: Bytes)
    ensures |s| == n
  {
    if n == 0 then [] else [(v % 256) as byte] + ToLe(v / 256, n - 1)
  }

  lemma {:induction false} FromTo(v: nat, n: nat)
    requires v < Pow256(n)
    ensures FromLe(ToLe(v, n)) == v
  {
    if n > 0 {
      FromTo(v / 256, n - 1);
      assert ToLe(v, n)[1..] == ToLe(v / 256, n - 1);
    }
  }

  lemma {:induction false} ToFrom(s: Bytes)
    ensures ToLe(FromLe(s), |s|) == s
  {
    if s != [] {
      ToFrom(s[1..]);
      assert s == [s[0]] + s[1..];
    }
  }

  /** The eight bytes at `a` hold the number v, least significant byte first. */
  predicate Holds(m: Bytes, a: nat, v: nat) {
    && a + 8 <= |m|
    && m[a] as nat == v % 256 && m[a + 1] as nat == v / 0x100 % 256
    && m[a + 2] as nat == v / 0x1_0000 % 256 && m[a + 3] as nat == v / 0x100_0000 % 256
    && m[a + 4] as nat == v / 0x1_0000_0000 % 256 && m[a + 5] as nat == v / 0x100_0000_0000 % 256
    && m[a + 6] as nat == v / 0x1_0000_0000_0000 % 256 && m[a + 7] as nat == v / 0x100_0000_0000_0000 % 256
  }

  /** The low and the high half of a number's bytes. */
  lemma ToLeHalves(v: nat)
    ensures ToLe(v, 8) == ToLe(v, 4) + ToLe(v / 0x1_0000_0000, 4)
  {
    var w := v / 256 / 256;
    assert w / 256 / 256 == v / 0x1_0000_0000;
    assert ToLe(v, 8) == [(v % 256) as byte, (v / 256 % 256) as byte] + ToLe(w, 6);
    assert ToLe(w, 6) == [(w % 256) as byte, (w / 256 % 256) as byte] + ToLe(w / 256 / 256, 4);
    assert ToLe(v, 4) == [(v % 256) as byte, (v / 256 % 256) as byte] + ToLe(w, 2);
    assert ToLe(w, 2) == [(w % 256) as byte, (w / 256 % 256) as byte] + ToLe(w / 256 / 256, 0);
  }

  lemma ToLeOf4(v: nat)
    ensures var s := ToLe(v, 4);
            && s[0] as nat == v % 256 && s[1] as nat == v / 0x100 % 256
            && s[2] as nat == v / 0x1_0000 % 256 && s[3] as nat == v / 0x100_0000 % 256
  {
    var w := v / 256 / 256;
    assert w == v / 0x1_0000 && w / 256 == v / 0x100_0000;
    assert ToLe(v, 4) == [(v % 256) as byte, (v / 256 % 256) as byte] + ToLe(w, 2);
    assert ToLe(w, 2) == [(w % 256) as byte, (w / 256 % 256) as byte] + ToLe(w / 256 / 256, 0);
  }

  lemma ToLeOf8(v: nat) returns (s: Bytes)
    ensures s == ToLe(v, 8) && Holds(s, 0, v)
  {
    var high := v / 0x1_0000_0000;
    ToLeHalves(v);
    ToLeOf4(v);
    ToLeOf4(high);
    assert high / 0x100 == v / 0x100_0000_0000 && high / 0x1_0000 == v / 0x1_0000_0000_0000;
    assert high / 0x100_0000 == v / 0x100_0000_0000_0000;
    s := ToLe(v, 8);
  }

  lemma SetWordHolds(m: Bytes, a: nat, v: nat)
    requires a + 8 <= |m|
    ensures Holds(SetWord(m, a, v), a, v)
  {
    var s := ToLeOf8(v);
    var m' := SetWord(m, a, v);
    assert forall j :: 0 <= j < 8 ==> m'[a + j] == s[j];
    assert Holds(s, 0, v);
  }

  /** The number in the eight bytes at `a`. */
  function NumberAt(m: Bytes, a: nat): (v: nat)
    requires a + 8 <= |m|
  {
    m[a] as nat + 0x100 * m[a + 1] as nat + 0x1_0000 * m[a + 2] as nat + 0x100_0000 * m[a + 3] as nat
    + 0x1_0000_0000 * m[a + 4] as nat + 0x100_0000_0000 * m[a + 5] as nat
    + 0x1_0000_0000_0000 * m[a + 6] as nat + 0x100_0000_0000_0000 * m[a + 7] as nat
  }

  lemma FromLeOf4(s: Bytes)
    requires |s| >= 4
    ensures FromLe(s) == s[0] as nat + 0x100 * s[1] as nat + 0x1_0000 * s[2] as nat + 0x100_0000 * s[3] as nat
                       + 0x1_0000_0000 * FromLe(s[4..])
  {
    assert s[1..][1..] == s[2..] && s[2..][1..] == s[3..] && s[3..][1..] == s[4..];
    assert FromLe(s) == s[0] as nat + 256 * FromLe(s[1..]);
    assert FromLe(s[1..]) == s[1] as nat + 256 * FromLe(s[2..]);
    assert FromLe(s[2..]) == s[2] as nat + 256 * FromLe(s[3..]);
    assert FromLe(s[3..]) == s[3] as nat + 256 * FromLe(s[4..]);
  }

  lemma WordIsNumber(m: Bytes, a: nat)
    requires a + 8 <= |m|
    ensures Word(m, a) == NumberAt(m, a)
  {
    var s := m[a..a + 8];
    FromLeOf4(s);
    FromLeOf4(s[4..]);
    assert s[4..][4..] == [];
  }

  function Word(m: Bytes, a: nat): (v: nat)
    requires a + 8 <= |m|
    ensures v < TWO64
  {
    Pow256Of8();
    FromLe(m[a..a + 8])
  }

  function SetWord(m: Bytes, a: nat, v: nat): (m': Bytes)
    requires a + 8 <= |m|
    ensures |m'| == |m|
    ensures forall i :: 0 <= i < |m| && !(a <= i < a + 8) ==> m'[i] == m[i]
  {
    m[..a] + ToLe(v, 8) + m[a + 8..]
  }

  lemma WordOfSet(m: Bytes, a: nat, v: nat)
    requires a + 8 <= |m| && v < TWO64
    ensures Word(SetWord(m, a, v), a) == v
  {
    Pow256Of8();
    assert SetWord(m, a, v)[a..a + 8] == ToLe(v, 8);
    FromTo(v, 8);
  }

  lemma SetOfWord(m: Bytes, a: nat)
    requires a + 8 <= |m|
    ensures SetWord(m, a, Word(m, a)) == m
  {
    ToFrom(m[a..a + 8]);
    assert m == m[..a] + m[a..a + 8] + m[a + 8..];
  }

  /** A word is determined by its eight bytes, and the other way round. */
  lemma WordIsBytes(m: Bytes, m': Bytes, a: nat)
    requires a + 8 <= |m| && a + 8 <= |m'|
    ensures Word(m, a) == Word(m', a) <==> m[a..a + 8] == m'[a..a + 8]
  {
    ToFrom(m[a..a + 8]);
    ToFrom(m'[a..a + 8]);
  }

  // ---- memcpy and memset -----------------------------------------------------------------------

  function Copied(m: Bytes, dst: nat, src: nat, len: nat): (m': Bytes)
    requires dst + len <= |m| && src + len <= |m|
    ensures |m'| == |m|
    ensures forall i :: 0 <= i < |m| ==> m'[i] == if dst <= i < dst + len then m[src + (i - dst)] else m[i]
  {
    m[..dst] + m[src..src + len] + m[dst + len..]
  }

  function Filled(m: Bytes, at: nat, len: nat, c: byte): (m': Bytes)
    requires at + len <= |m|
    ensures |m'| == |m|
    ensures forall i :: 0 <= i < |m| ==> m'[i] == if at <= i < at + len then c else m[i]
  {
    m[..at] + seq(len, _ => c) + m[at + len..]
  }

  /** memcpy's own assertion. When it fails the loader hangs. */
  predicate NoOverlap(dst: nat, src: nat, len: nat) {
    (src < dst && src + len <= dst) || (dst < src && dst + len <= src)
  }

  method Memset(mem: array<byte>, start: nat, c: byte, n: nat)
    requires start + n <= mem.Length
    modifies mem
    ensures mem[..] == Filled(old(mem[..]), start, n, c)
  {
    var p := start;
    for m := 0 to n
      invariant p == start + m
      invariant forall i :: 0 <= i < mem.Length ==> mem[i] == if start <= i < p then c else old(mem[i])
    {
      mem[p] := c;
      p := p + 1;
    }
  }

  method Memcpy(mem: array<byte>, dst: nat, src: nat, len: nat)
    requires dst + len <= mem.Length && src + len <= mem.Length && NoOverlap(dst, src, len)
    modifies mem
    ensures mem[..] == Copied(old(mem[..]), dst, src, len)
  {
    var d, s, left := dst, src, len;
    while left > 0
      invariant 0 <= left <= len && d == dst + (len - left) && s == src + (len - left)
      invariant forall i ::
        0 <= i < mem.Length ==> mem[i] == if dst <= i < d then old(mem[src + (i - dst)]) else old(mem[i])
    {
      left := left - 1;
      mem[d] := mem[s];
      d, s := d + 1, s + 1;
    }
  }
}
