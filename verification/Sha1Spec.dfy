// SHA-1 as FIPS PUB 180-1 defines it, on messages of whole octets.
module Sha1Spec {
  import opened Words
  import opened Bytes

  datatype Five = Five(a: Word32, b: Word32, c: Word32, d: Word32, e: Word32)

  const START := Five(0x67452301, 0xEFCDAB89, 0x98BADCFE, 0x10325476, 0xC3D2E1F0)

  // The word whose octets, lowest first, start at `first` and go by `step`.
  function Counting(first: int, step: int): int {
    first + 0x100 * (first + step) + 0x1_0000 * (first + 2 * step) + 0x100_0000 * (first + 3 * step)
  }

  // The starting values count up from 01 23 45, down from FE DC BA, and down from F0 E1 D2.
  lemma StartCounts()
    ensures START.a == Counting(0x01, 0x22) && START.b == Counting(0x01 + 4 * 0x22, 0x22)
    ensures START.c == Counting(0xFE, -0x22) && START.d == Counting(0xFE - 4 * 0x22, -0x22)
    ensures START.e == Counting(0xF0, -0x0F)
  {
  }

  // Section 5.
  function F(t: nat, b: Word32, c: Word32, d: Word32): Word32 {
    if t < 20 then Or(And(b, c), And(Not(b), d))
    else if t < 40 then Xor(Xor(b, c), d)
    else if t < 60 then Or(Or(And(b, c), And(b, d)), And(c, d))
    else Xor(Xor(b, c), d)
  }

  predicate Choose(b: bool, c: bool, d: bool) {
    if b then c else d
  }

  predicate Odd(b: bool, c: bool, d: bool) {
    (b != c) != d
  }

  predicate Majority(b: bool, c: bool, d: bool) {
    (b && (c || d)) || (c && d)
  }

  // Bit by bit: choice, parity, majority, parity.
  lemma FBits(t: nat, b: Word32, c: Word32, d: Word32, k: nat)
    requires k < 32
    ensures Bit(F(t, b, c, d), k) <==>
            if t < 20 then Choose(Bit(b, k), Bit(c, k), Bit(d, k))
            else if 40 <= t < 60 then Majority(Bit(b, k), Bit(c, k), Bit(d, k))
            else Odd(Bit(b, k), Bit(c, k), Bit(d, k))
  {
    if t < 20 {
      NotBit(b, k);
      AndBit(b, c, k);
      AndBit(Not(b), d, k);
      OrBit(And(b, c), And(Not(b), d), k);
    } else if 40 <= t < 60 {
      AndBit(b, c, k);
      AndBit(b, d, k);
      AndBit(c, d, k);
      OrBit(And(b, c), And(b, d), k);
      OrBit(Or(And(b, c), And(b, d)), And(c, d), k);
    } else {
      XorBit(b, c, k);
      XorBit(Xor(b, c), d, k);
    }
  }

  // Section 6.
  function K(t: nat): Word32 {
    if t < 20 then 0x5A827999
    else if t < 40 then 0x6ED9EBA1
    else if t < 60 then 0x8F1BBCDC
    else 0xCA62C1D6
  }

  // The four constants are 2^30 times the square roots of 2, 3, 5 and 10, rounded down.
  lemma ConstantsAreRoots(t: nat)
    ensures var c := if t < 20 then 2 else if t < 40 then 3 else if t < 60 then 5 else 10;
            K(t) * K(t) <= c * 0x1000_0000_0000_0000 < (K(t) + 1) * (K(t) + 1)
  {
  }

  function BlockWord(b0: Byte, b1: Byte, b2: Byte, b3: Byte): Word32 {
    ((b0 * 256 + b1) * 256 + b2) * 256 + b3
  }

  // Section 7, step b: word t of the schedule from those before it.
  function NextWord(ws: seq<Word32>): Word32
    requires |ws| >= 16
  {
    var t := |ws|;
    Rotl(1, Xor(Xor(Xor(ws[t - 3], ws[t - 8]), ws[t - 14]), ws[t - 16]))
  }

  // Steps a and b: ws is the word schedule of a block.
  ghost predicate IsSchedule(ws: seq<Word32>, block: seq<Byte>)
    requires |block| == 64
  {
    && |ws| == 80
    && (forall t :: 0 <= t < 16 ==>
          ws[t] == BlockWord(block[4 * t], block[4 * t + 1], block[4 * t + 2], block[4 * t + 3]))
    && (forall t {:trigger ws[..t]} :: 16 <= t < 80 ==> ws[t] == NextWord(ws[..t]))
  }

  function Expand(ws: seq<Word32>): (r: seq<Word32>)
    requires 16 <= |ws| <= 80
    requires forall t {:trigger ws[..t]} :: 16 <= t < |ws| ==> ws[t] == NextWord(ws[..t])
    ensures |r| == 80 && ws <= r
    ensures forall t {:trigger r[..t]} :: 16 <= t < 80 ==> r[t] == NextWord(r[..t])
    decreases 80 - |ws|
  {
    if |ws| == 80 then ws
    else
      var longer := ws + [NextWord(ws)];
      assert forall t :: 16 <= t <= |ws| ==> longer[..t] == ws[..t];
      Expand(longer)
  }

  function Schedule(block: seq<Byte>): (ws: seq<Word32>)
    requires |block| == 64
    ensures IsSchedule(ws, block)
  {
    Expand(FirstWords(block))
  }

  function FirstWords(block: seq<Byte>): (ws: seq<Word32>)
    requires |block| == 64
    ensures |ws| == 16
    ensures forall t :: 0 <= t < 16 ==>
              ws[t] == BlockWord(block[4 * t], block[4 * t + 1], block[4 * t + 2], block[4 * t + 3])
  {
    seq(16, t requires 0 <= t < 16 => BlockWord(block[4 * t], block[4 * t + 1], block[4 * t + 2], block[4 * t + 3]))
  }

  lemma {:induction false} SchedulesAgree(ws: seq<Word32>, vs: seq<Word32>, block: seq<Byte>, n: nat)
    requires |block| == 64 && IsSchedule(ws, block) && IsSchedule(vs, block) && n <= 80
    ensures ws[..n] == vs[..n]
  {
    if n > 0 {
      SchedulesAgree(ws, vs, block, n - 1);
      assert ws[n - 1] == vs[n - 1];
    }
  }

  // There is only one schedule.
  lemma ScheduleUnique(ws: seq<Word32>, block: seq<Byte>)
    requires |block| == 64 && IsSchedule(ws, block)
    ensures ws == Schedule(block)
  {
    SchedulesAgree(ws, Schedule(block), block, |ws|);
  }

  // Step d.
  function Round(t: nat, v: Five, w: Word32): Five {
    Five((Rotl(5, v.a) + F(t, v.b, v.c, v.d) + v.e + w + K(t)) % WORD, v.a, Rotl(30, v.b), v.c, v.d)
  }

  function Rounds(h: Five, ws: seq<Word32>): Five {
    if ws == [] then h
    else Round(|ws| - 1, Rounds(h, ws[..|ws| - 1]), ws[|ws| - 1])
  }

  // Steps c to e.
  function Compress(h: Five, block: seq<Byte>): Five
    requires |block| == 64
  {
    AddFive(h, Rounds(h, Schedule(block)))
  }

  function AddFive(h: Five, v: Five): Five {
    Five((h.a + v.a) % WORD, (h.b + v.b) % WORD, (h.c + v.c) % WORD, (h.d + v.d) % WORD, (h.e + v.e) % WORD)
  }

  ghost predicate Compresses(f: (Five, seq<Byte>) -> Five) {
    forall h, b {:trigger Compress(h, b)} :: |b| == 64 ==> f(h, b) == Compress(h, b)
  }

  lemma CompressionExists()
    ensures exists f :: Compresses(f)
  {
    var g: (Five, seq<Byte>) -> Five := (h, b: seq<Byte>) => if |b| == 64 then Compress(h, b) else h;
    assert Compresses(g);
  }

  // Compress as a value, so that reasoning about runs of blocks need not look inside it.
  ghost function Compression(): (f: (Five, seq<Byte>) -> Five)
    ensures Compresses(f)
  {
    CompressionExists();
    var f: (Five, seq<Byte>) -> Five :| Compresses(f);
    f
  }

  // Section 7 over the whole blocks of m, which is meant to have nothing left over.
  ghost function HashBlocks(m: seq<Byte>): Five {
    if |m| < 64 then START
    else Compression()(HashBlocks(m[..|m| - 64]), m[|m| - 64..])
  }

  // A 64-bit number, most significant octet first.
  function BitLength(n: nat): (s: seq<Byte>)
    ensures |s| == 8
  {
    [(n / 0x100_0000_0000_0000) % 256, (n / 0x1_0000_0000_0000) % 256,
     (n / 0x100_0000_0000) % 256, (n / 0x1_0000_0000) % 256,
     (n / 0x100_0000) % 256, (n / 0x1_0000) % 256, (n / 0x100) % 256, n % 256]
  }

  lemma DivThen(n: nat, d: nat)
    requires d > 0
    ensures n / (d * 256) == n / d / 256
  {
    var q, s, r := n / d / 256, n / d % 256, n % d;
    assert n == d * (256 * q + s) + r;
    assert n == (d * 256) * q + (d * s + r);
    MulStep(d, s, 256);
    MulStep(d, -1, s);
    QuotientIs(n, d * 256, q, d * s + r);
  }

  lemma Octets(n: nat)
    requires n < 0x1_0000_0000_0000_0000
    ensures n / 0x100_0000_0000_0000 < 256
    ensures n / 0x1_0000_0000_0000 == n / 0x100_0000_0000_0000 * 256 + n / 0x1_0000_0000_0000 % 256
    ensures n / 0x100_0000_0000 == n / 0x1_0000_0000_0000 * 256 + n / 0x100_0000_0000 % 256
    ensures n / 0x1_0000_0000 == n / 0x100_0000_0000 * 256 + n / 0x1_0000_0000 % 256
    ensures n / 0x100_0000 == n / 0x1_0000_0000 * 256 + n / 0x100_0000 % 256
    ensures n / 0x1_0000 == n / 0x100_0000 * 256 + n / 0x1_0000 % 256
    ensures n / 0x100 == n / 0x1_0000 * 256 + n / 0x100 % 256
  {
    DivThen(n, 0x100);
    DivThen(n, 0x1_0000);
    DivThen(n, 0x100_0000);
    DivThen(n, 0x1_0000_0000);
    DivThen(n, 0x100_0000_0000);
    DivThen(n, 0x1_0000_0000_0000);
  }

  // Read as a number, the eight octets are the length.
  lemma BitLengthIs(n: nat)
    requires n < 0x1_0000_0000_0000_0000
    ensures Value(BitLength(n)) == n
  {
    Octets(n);
    var s: seq<Byte>, tops: seq<nat> := BitLength(n), Tops(n);
    ValueChain(s, tops, 7);
  }

  // n without its last seven, six, ... octets.
  function Tops(n: nat): (t: seq<nat>)
    ensures |t| == 8
  {
    [n / 0x100_0000_0000_0000, n / 0x1_0000_0000_0000, n / 0x100_0000_0000, n / 0x1_0000_0000,
     n / 0x100_0000, n / 0x1_0000, n / 0x100, n]
  }

  lemma {:induction false} ValueChain(s: seq<Byte>, tops: seq<nat>, k: nat)
    requires k < |s| == |tops| && tops[0] == s[0]
    requires forall i :: 1 <= i < |s| ==> tops[i] == tops[i - 1] * 256 + s[i]
    ensures ValueTo(s, k + 1) == tops[k]
  {
    if k > 0 {
      ValueChain(s, tops, k - 1);
    }
  }

  // Section 4: a one bit, the fewest zero bits that leave room for the length, and the length of
  // the message in bits.
  function Padding(n: nat): (p: seq<Byte>)
    ensures |p| == 9 + (55 - n) % 64
    ensures (n + |p|) % 64 == 0
  {
    assert (n + 9 + (55 - n) % 64) % 64 == 0 by { WholeBlocks(n); }
    [0x80] + Zeros((55 - n) % 64) + BitLength(8 * n)
  }

  // Octet by octet: the one bit at the top of the first, zeros, and the length in bits.
  lemma PaddingOctets(n: nat)
    requires 8 * n < 0x1_0000_0000_0000_0000
    ensures var p := Padding(n);
            && p[0] == 0x80 && (forall k :: 1 <= k < |p| - 8 ==> p[k] == 0)
            && Value(p[|p| - 8..]) == 8 * n
  {
    var p := Padding(n);
    BitLengthIs(8 * n);
    assert p[|p| - 8..] == BitLength(8 * n);
  }

  lemma WholeBlocks(n: int)
    ensures (n + 9 + (55 - n) % 64) % 64 == 0
  {
    var q := (55 - n) / 64;
    assert n + 9 + (55 - n) % 64 == 64 * (1 - q);
  }

  ghost function Digest(m: seq<Byte>): Five
    requires 8 * |m| < 0x1_0000_0000_0000_0000
  {
    HashBlocks(m + Padding(|m|))
  }

  // No shorter run of zeros would do.
  lemma PaddingIsShortest(n: nat, zeros: nat)
    requires (n + 1 + zeros + 8) % 64 == 0
    ensures |Padding(n)| <= 1 + zeros + 8
  {
    var q, k := (n + 9 + zeros) / 64, (55 - n) / 64;
    assert zeros - (55 - n) % 64 == 64 * (q + k - 1);
  }

  // The recurrence of section 7, in terms of the compression it names.
  lemma HashBlocksStep(m: seq<Byte>, block: seq<Byte>)
    requires |block| == 64
    ensures HashBlocks(m + block) == Compress(HashBlocks(m), block)
  {
    HashBlocksSnoc(m, block);
    assert Compression()(HashBlocks(m), block) == Compress(HashBlocks(m), block);
  }

  lemma HashNothing(m: seq<Byte>)
    requires |m| == 0
    ensures HashBlocks(m) == START
  {
  }

  lemma HashBlocksSnoc(m: seq<Byte>, block: seq<Byte>)
    requires |block| == 64
    ensures HashBlocks(m + block) == Compression()(HashBlocks(m), block)
  {
    assert (m + block)[..|m + block| - 64] == m;
    assert (m + block)[|m + block| - 64..] == block;
  }
}
