/**
 The CPU_*_S macros: an array of 64-bit words standing for a set of cpu numbers. A word is given by
 its 64 binary digits, least significant first; the macros only use bitwise operations, a shifted 1
 and comparison with zero.
 */
module CpuSets {

  const BITS := 64    // bits of a word
  const WORD := 8     // bytes of a word
  const SIZE_T := 0x1_0000_0000_0000_0000

  const NO_BITS: seq<bool> := seq(BITS, _ => false)

  type Word = w: seq<bool> | |w| == BITS witness NO_BITS

  /** A C integer converted to `size_t`: a negative one becomes huge. */
  function SizeT(x: int): nat {
    x % SIZE_T
  }

  // ---------- Operations on words ----------

  /** 1 << k. */
  function OneBit(k: nat): Word
    requires k < BITS
  {
    seq(BITS, i => i == k)
  }

  function Complement(a: Word): Word {
    seq(BITS, i requires 0 <= i < BITS => !a[i])
  }

  datatype Op = And | Or | Xor

  function Combine(op: Op, a: bool, b: bool): bool {
    match op
    case And => a && b
    case Or => a || b
    case Xor => a != b
  }

  function Bitwise(op: Op, a: Word, b: Word): Word {
    seq(BITS, i requires 0 <= i < BITS => Combine(op, a[i], b[i]))
  }

  // ---------- Addressing ----------

  function Elt(x: nat): nat {
    x / BITS
  }

  function CpuMask(x: nat): Word {
    OneBit(x % BITS)
  }

  /** The set that the words stand for: number x is digit x % 64 of word x / 64. */
  ghost function Members(words: seq<Word>): set<nat> {
    set x: nat | x < 64 * |words| && words[x / 64][x % 64]
  }

  /** An argument of a C integer type, and a set that fits in memory. */
  predicate Sensible(cpu: int, setsize: nat) {
    -(SIZE_T / 2) <= cpu < SIZE_T / 2 && setsize < SIZE_T / 16
  }

  /** The number that such an argument names, if it is in range: a negative one names none. */
  ghost function Named(cpu: int, setsize: nat): set<nat> {
    if 0 <= cpu < 8 * setsize then {cpu} else {}
  }

  /** Converted to `size_t` a negative argument is out of range of any such set. */
  lemma NamedIs(cpu: int, setsize: nat)
    requires Sensible(cpu, setsize)
    ensures Named(cpu, setsize) == if SizeT(cpu) < 8 * setsize then {SizeT(cpu)} else {}
  {
  }

  /** Rewriting one word with one digit changed adds or removes exactly that number. */
  lemma MembersUpdate(words: seq<Word>, cpu: nat, w: Word)
    requires cpu < BITS * |words|
    requires forall j :: 0 <= j < BITS && j != cpu % BITS ==> w[j] == words[Elt(cpu)][j]
    ensures Members(words[Elt(cpu) := w]) == if w[cpu % BITS] then Members(words) + {cpu} else Members(words) - {cpu}
  {
    var now := words[Elt(cpu) := w];
    forall x: nat
      ensures x in Members(now) <==> if x == cpu then w[cpu % BITS] else x in Members(words)
    {
      if x < BITS * |words| {
        assert x == cpu <==> Elt(x) == Elt(cpu) && x % BITS == cpu % BITS;
      }
    }
  }

  /** The members that a set of this many bytes can have; its last word may be cut short. */
  ghost function Within(words: seq<Word>, setsize: nat): set<nat> {
    set x | x in Members(words) && x < 8 * setsize
  }

  method CpuSet(cpu: int, setsize: nat, bits: array<Word>)
    requires setsize <= WORD * bits.Length
    modifies bits
    ensures Members(bits[..]) == Members(old(bits[..])) + if SizeT(cpu) < 8 * setsize then {SizeT(cpu)} else {}
    ensures SizeT(cpu) >= 8 * setsize ==> bits[..] == old(bits[..])
    ensures Sensible(cpu, setsize) ==> Members(bits[..]) == Members(old(bits[..])) + Named(cpu, setsize)
    ensures Sensible(cpu, setsize) && cpu < 0 ==> bits[..] == old(bits[..])
  {
    if Sensible(cpu, setsize) {
      NamedIs(cpu, setsize);
    }
    var c := SizeT(cpu);
    if c < 8 * setsize {
      var w := Bitwise(Or, bits[Elt(c)], CpuMask(c));
      MembersUpdate(bits[..], c, w);
      bits[Elt(c)] := w;
      assert bits[..] == old(bits[..])[Elt(c) := w];
    }
  }

  method CpuClr(cpu: int, setsize: nat, bits: array<Word>)
    requires setsize <= WORD * bits.Length
    modifies bits
    ensures Members(bits[..]) == Members(old(bits[..])) - if SizeT(cpu) < 8 * setsize then {SizeT(cpu)} else {}
    ensures SizeT(cpu) >= 8 * setsize ==> bits[..] == old(bits[..])
    ensures Sensible(cpu, setsize) ==> Members(bits[..]) == Members(old(bits[..])) - Named(cpu, setsize)
    ensures Sensible(cpu, setsize) && cpu < 0 ==> bits[..] == old(bits[..])
  {
    if Sensible(cpu, setsize) {
      NamedIs(cpu, setsize);
    }
    var c := SizeT(cpu);
    if c < 8 * setsize {
      var w := Bitwise(And, bits[Elt(c)], Complement(CpuMask(c)));
      MembersUpdate(bits[..], c, w);
      bits[Elt(c)] := w;
      assert bits[..] == old(bits[..])[Elt(c) := w];
    }
  }

  method CpuIsSet(cpu: int, setsize: nat, bits: array<Word>) returns (r: bool)
    requires setsize <= WORD * bits.Length
    ensures r <==> SizeT(cpu) in Within(bits[..], setsize)
    ensures Sensible(cpu, setsize) ==> (r <==> cpu in Named(cpu, setsize) && cpu in Members(bits[..]))
  {
    if Sensible(cpu, setsize) {
      NamedIs(cpu, setsize);
    }
    var c := SizeT(cpu);
    if c < 8 * setsize {
      var w := Bitwise(And, bits[Elt(c)], CpuMask(c));
      assert w[c % BITS] == bits[Elt(c)][c % BITS];
      assert !w[c % BITS] ==> w == NO_BITS;
      assert NO_BITS[c % BITS] == false;
      return w != NO_BITS;
    } else {
      return false;
    }
  }

  // ---------- Whole sets, byte by byte ----------

  /** Digit x of the memory that the words fill. */
  predicate Digit(words: seq<Word>, x: nat)
    requires x < BITS * |words|
  {
    words[Elt(x)][x % BITS]
  }

  /** Zeroes one byte of a word; digit x of the memory is in byte x / 8, as words are little-endian. */
  function WithoutByte(a: Word, n: nat): Word
    requires n < WORD
  {
    seq(BITS, i requires 0 <= i < BITS => a[i] && i / 8 != n)
  }

  lemma ZeroByte(words: seq<Word>, n: nat, x: nat)
    requires n < WORD * |words| && x < BITS * |words|
    ensures Digit(words[n / WORD := WithoutByte(words[n / WORD], n % WORD)], x) <==> Digit(words, x) && x / 8 != n
  {
    assert x / 8 == n <==> Elt(x) == n / WORD && (x % BITS) / 8 == n % WORD;
  }

  /** memset with 0. */
  method CpuZero(setsize: nat, bits: array<Word>)
    requires setsize <= WORD * bits.Length
    modifies bits
    ensures Within(bits[..], setsize) == {}
    ensures Members(bits[..]) == Members(old(bits[..])) - Within(old(bits[..]), setsize)
  {
    for n := 0 to setsize
      invariant forall x: nat :: x < BITS * bits.Length ==>
        (Digit(bits[..], x) <==> old(Digit(bits[..], x)) && 8 * n <= x)
    {
      ghost var before := bits[..];
      bits[n / WORD] := WithoutByte(bits[n / WORD], n % WORD);
      assert bits[..] == before[n / WORD := WithoutByte(before[n / WORD], n % WORD)];
      forall x: nat | x < BITS * bits.Length
        ensures Digit(bits[..], x) <==> Digit(before, x) && x / 8 != n
      {
        ZeroByte(before, n, x);
      }
    }
    forall x: nat
      ensures x in Members(bits[..]) <==> x in Members(old(bits[..])) && 8 * setsize <= x
    {
      if x < BITS * bits.Length {
        assert Digit(bits[..], x) <==> old(Digit(bits[..], x)) && 8 * setsize <= x;
      }
    }
  }

  ghost function Combined(op: Op, a: set<nat>, b: set<nat>): set<nat> {
    match op
    case And => a * b
    case Or => a + b
    case Xor => (a - b) + (b - a)
  }

  /** The numbers that the first max words hold. */
  ghost function InWords(s: set<nat>, max: nat): set<nat> {
    set x | x in s && x < BITS * max
  }

  /**
   The word-by-word loop; the destination may be a source. It covers the whole words of the set and
   leaves a last word that is cut short as it was.
   */
  method CpuOp(op: Op, setsize: nat, dst: array<Word>, src1: array<Word>, src2: array<Word>)
    requires setsize <= WORD * dst.Length && setsize <= WORD * src1.Length && setsize <= WORD * src2.Length
    modifies dst
    ensures Members(dst[..]) ==
            InWords(Combined(op, Members(old(src1[..])), Members(old(src2[..]))), setsize / WORD)
            + (Members(old(dst[..])) - InWords(Members(old(dst[..])), setsize / WORD))
    ensures setsize == WORD * dst.Length && dst.Length == src1.Length == src2.Length ==>
      var a, b := Members(old(src1[..])), Members(old(src2[..]));
      Members(dst[..]) == match op case And => a * b case Or => a + b case Xor => (a - b) + (b - a)
  {
    var nn, max := 0, setsize / WORD;
    while nn < max
      invariant 0 <= nn <= max
      invariant forall k :: 0 <= k < nn ==> dst[k] == Bitwise(op, old(src1[k]), old(src2[k]))
      invariant forall k :: nn <= k < dst.Length ==> dst[k] == old(dst[k])
      invariant forall k :: nn <= k < src1.Length ==> src1[k] == old(src1[k])
      invariant forall k :: nn <= k < src2.Length ==> src2[k] == old(src2[k])
    {
      dst[nn] := Bitwise(op, src1[nn], src2[nn]);
      nn := nn + 1;
    }
    WordwiseMembers(op, dst[..], old(dst[..]), old(src1[..]), old(src2[..]), max);
  }

  lemma WordwiseMembers(op: Op, d: seq<Word>, was: seq<Word>, a: seq<Word>, b: seq<Word>, max: nat)
    requires |d| == |was| && max <= |d| && max <= |a| && max <= |b|
    requires forall k :: 0 <= k < max ==> d[k] == Bitwise(op, a[k], b[k])
    requires forall k :: max <= k < |d| ==> d[k] == was[k]
    ensures Members(d) ==
            InWords(Combined(op, Members(a), Members(b)), max) + (Members(was) - InWords(Members(was), max))
  {
    forall x: nat
      ensures x in Members(d) <==>
              if x < BITS * max then x in Combined(op, Members(a), Members(b)) else x in Members(was)
    {
      if x < BITS * max {
        assert Elt(x) < max;
        assert d[Elt(x)][x % BITS] == Combine(op, a[Elt(x)][x % BITS], b[Elt(x)][x % BITS]);
      } else if x < BITS * |d| {
        assert max <= Elt(x) < |d|;
      }
    }
  }

  // ---------- Comparison ----------

  /** Byte n of the memory. */
  function Byte(words: seq<Word>, n: nat): seq<bool>
    requires n < WORD * |words|
  {
    words[n / WORD][8 * (n % WORD)..8 * (n % WORD) + 8]
  }

  ghost predicate SameBytes(a: seq<Word>, b: seq<Word>, setsize: nat)
    requires setsize <= WORD * |a| && setsize <= WORD * |b|
  {
    forall n: nat :: n < setsize ==> Byte(a, n) == Byte(b, n)
  }

  lemma DigitOfByte(words: seq<Word>, x: nat)
    requires x < BITS * |words|
    ensures Digit(words, x) == Byte(words, x / 8)[x % 8]
  {
    assert (x / 8) / WORD == Elt(x) && 8 * ((x / 8) % WORD) + x % 8 == x % BITS;
  }

  /** Equal bytes are equal sets. */
  lemma EqualIff(a: seq<Word>, b: seq<Word>, setsize: nat)
    requires setsize <= WORD * |a| && setsize <= WORD * |b|
    ensures SameBytes(a, b, setsize) <==> Within(a, setsize) == Within(b, setsize)
  {
    if SameBytes(a, b, setsize) {
      forall x: nat | x < 8 * setsize
        ensures x in Members(a) <==> x in Members(b)
      {
        DigitOfByte(a, x);
        DigitOfByte(b, x);
        assert Byte(a, x / 8) == Byte(b, x / 8);
        assert Digit(a, x) == Digit(b, x);
      }
    }
    if Within(a, setsize) == Within(b, setsize) {
      forall n: nat | n < setsize
        ensures Byte(a, n) == Byte(b, n)
      {
        SameMembersSameByte(a, b, setsize, n);
      }
    }
  }

  lemma SameMembersSameByte(a: seq<Word>, b: seq<Word>, setsize: nat, n: nat)
    requires setsize <= WORD * |a| && setsize <= WORD * |b| && n < setsize
    requires Within(a, setsize) == Within(b, setsize)
    ensures Byte(a, n) == Byte(b, n)
  {
    forall j | 0 <= j < 8
      ensures Byte(a, n)[j] == Byte(b, n)[j]
    {
      var x := 8 * n + j;
      assert x / 8 == n && x % 8 == j;
      DigitOfByte(a, x);
      DigitOfByte(b, x);
      assert x in Within(a, setsize) <==> x in Within(b, setsize);
      assert Digit(a, x) == Digit(b, x);
    }
  }

  /** `CPU_EQUAL_S`: memcmp over the bytes of the set. */
  method CpuEqual(setsize: nat, set1: array<Word>, set2: array<Word>) returns (r: bool)
    requires setsize <= WORD * set1.Length && setsize <= WORD * set2.Length
    ensures r <==> Within(set1[..], setsize) == Within(set2[..], setsize)
  {
    EqualIff(set1[..], set2[..], setsize);
    for n := 0 to setsize
      invariant forall k: nat :: k < n ==> Byte(set1[..], k) == Byte(set2[..], k)
    {
      if Byte(set1[..], n) != Byte(set2[..], n) {
        return false;
      }
    }
    return true;
  }

  /** `CPU_ALLOC_SIZE`, in wrapping `size_t` arithmetic. */
  function AllocSize(count: nat): nat {
    SizeT(Elt(SizeT(count + (BITS - 1))) * WORD)
  }

  /** There is room for `count` bits iff the rounding-up does not wrap; then less than one word is spare. */
  lemma AllocSizeFits(count: nat)
    requires count < SIZE_T
    ensures count <= 8 * AllocSize(count) <==> count + (BITS - 1) < SIZE_T
    ensures AllocSize(count) % WORD == 0
    ensures count <= 8 * AllocSize(count) ==> 8 * AllocSize(count) < count + BITS
    ensures count + (BITS - 1) >= SIZE_T ==> AllocSize(count) == 0
  {
  }
}
