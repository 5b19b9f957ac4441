// The streaming hash of lab4/router/sha1.c: a 64-byte buffer, a two-word bit counter and five
// digest words, changed in place.  Valid() ties them to the message so far.
module Sha1 {
  import opened Words
  import opened Bytes
  import opened Sha1Spec

  const LIMIT := 0x1_0000_0000_0000_0000

  class Context {
    const digest: array<Word32>
    const block: array<Byte>
    var lengthLow: nat
    var lengthHigh: nat
    var index: nat
    var computed: bool
    var corrupted: bool
    ghost var msg: seq<Byte>
    ghost var blocks: nat

    ghost predicate Shape() {
      digest.Length == 5 && block.Length == 64 && (digest as object) != (block as object)
    }

    function State(): Five
      requires digest.Length == 5
      reads digest
    {
      Five(digest[0], digest[1], digest[2], digest[3], digest[4])
    }

    // The digest covers whole blocks of m and the buffer holds the rest.
    ghost predicate Holds(m: seq<Byte>)
      requires Shape()
      reads this`index, this`blocks, digest, block
    {
      && index <= 64 && |m| == 64 * blocks + index
      && block[..index] == m[|m| - index..]
      && State() == HashBlocks(m[..|m| - index])
    }

    // The two length words hold the number of bits in n octets.
    ghost predicate Counts(n: nat)
      reads this`lengthLow, this`lengthHigh
    {
      && lengthLow < WORD && lengthHigh < WORD
      && lengthHigh * WORD + lengthLow == 8 * n
    }

    // Still taking input.
    ghost predicate Open(m: seq<Byte>)
      requires Shape()
      reads this`index, this`blocks, this`lengthLow, this`lengthHigh, digest, block
    {
      Holds(m) && index < 64 && Counts(|m|)
    }

    ghost predicate Valid()
      reads this, digest, block
    {
      && Shape()
      && (!corrupted ==> 8 * |msg| < LIMIT)
      && (!corrupted && !computed ==> Open(msg))
      && (!corrupted && computed ==> State() == Digest(msg))
    }

    constructor ()
      ensures Valid() && fresh(digest) && fresh(block) && !computed && !corrupted && |msg| == 0
    {
      digest := new Word32[5];
      block := new Byte[64];
      lengthLow, lengthHigh, index, computed, corrupted := 0, 0, 0, false, false;
      new;
      Reset();
    }

    // SHA1Reset
    method Reset()
      requires Shape()
      modifies this, digest
      ensures Open(msg) && !computed && !corrupted && |msg| == 0
    {
      ClearCounters();
      StartDigest();
      NothingHeld(msg, block[..index], index, State());
    }

    method ClearCounters()
      modifies this
      ensures index == 0 && blocks == 0 && msg == [] && !computed && !corrupted && Counts(0)
    {
      lengthLow, lengthHigh, index := 0, 0, 0;
      computed, corrupted, msg, blocks := false, false, [], 0;
    }

    method StartDigest()
      requires Shape()
      modifies digest
      ensures State() == START
    {
      digest[0], digest[1], digest[2], digest[3], digest[4] :=
        0x67452301, 0xEFCDAB89, 0x98BADCFE, 0x10325476, 0xC3D2E1F0;
    }

    // SHA1Input
    method Input(data: seq<Byte>)
      requires Valid()
      modifies this, digest, block
      ensures Valid() && computed == old(computed)
      ensures data == [] ==> msg == old(msg) && corrupted == old(corrupted) && State() == old(State())
      ensures data != [] && (old(computed) || old(corrupted)) ==> corrupted
      ensures data != [] && !old(computed) && !old(corrupted) ==>
                if 8 * (|old(msg)| + |data|) < LIMIT then !corrupted && msg == old(msg) + data else corrupted
    {
      if data == [] {
        return;
      }
      if computed || corrupted {
        corrupted := true;
        return;
      }
      Feed(data);
    }

    // Its loop, over data that is not empty.
    method Feed(data: seq<Byte>)
      requires Shape() && Open(msg) && !corrupted && 8 * |msg| < LIMIT
      modifies this, digest, block
      ensures computed == old(computed)
      ensures corrupted <==> 8 * (|old(msg)| + |data|) >= LIMIT
      ensures !corrupted ==> Open(msg) && msg == old(msg) + data
    {
      var n := 0;
      while n < |data| && !corrupted
        invariant n <= |data| && computed == old(computed)
        invariant !corrupted ==> Open(msg)
        decreases |data| - n
        invariant corrupted <==> 8 * |msg| >= LIMIT
        invariant msg == old(msg) + data[..n]
      {
        assert data[..n + 1] == data[..n] + [data[n]];
        InputByte(data[n]);
        n := n + 1;
      }
      if !corrupted {
        assert n == |data| && data[..n] == data;
      }
    }

    // The body of its loop.
    method InputByte(b: Byte)
      requires Shape() && Open(msg) && !corrupted
      modifies this, digest, block
      ensures computed == old(computed)
      ensures msg == old(msg) + [b]
      ensures corrupted <==> 8 * |msg| >= LIMIT
      ensures !corrupted ==> Open(msg)
    {
      StoreByte(b);
      CountByte(|msg| - 1);
      if index == 64 {
        Flush();
      }
    }

    method StoreByte(b: Byte)
      requires Shape() && Holds(msg) && index < 64
      modifies this`index, this`msg, block
      ensures Holds(msg) && msg == old(msg) + [b] && index == old(index) + 1
    {
      ghost var was, i := msg, index;
      block[index] := b;
      index := index + 1;
      msg := msg + [b];
      Grown(was, msg, b, i);
      assert block[..index] == old(block[..index]) + [b];
      assert State() == HashBlocks(msg[..|msg| - index]);
    }

    method Flush()
      requires Shape() && Holds(msg) && index == 64
      modifies this`index, this`blocks, digest
      ensures Holds(msg) && index == 0
    {
      assert msg[|msg| - 64..] == block[..];
      ProcessFull(msg[..|msg| - 64]);
      blocks := blocks + 1;
      assert msg[..|msg| - 64] + block[..] == msg == msg[..|msg| - index];
    }

    // Its counter, which gives up when the message reaches 2^64 bits.
    method CountByte(ghost n: nat)
      requires Counts(n) && !corrupted
      modifies this`lengthLow, this`lengthHigh, this`corrupted
      ensures corrupted <==> 8 * (n + 1) >= LIMIT
      ensures !corrupted ==> Counts(n + 1)
    {
      lengthLow := (lengthLow + 8) % WORD;
      if lengthLow == 0 {
        lengthHigh := (lengthHigh + 1) % WORD;
        if lengthHigh == 0 {
          corrupted := true;
        }
      }
    }

    // SHA1Result
    method Result() returns (ok: bool)
      requires Valid()
      modifies this, digest, block
      ensures Valid() && msg == old(msg) && corrupted == old(corrupted)
      ensures ok == !corrupted
      ensures ok ==> computed && 8 * |msg| < LIMIT && State() == Digest(msg)
    {
      if corrupted {
        return false;
      }
      if !computed {
        PadMessage();
        computed := true;
      }
      return true;
    }

    // SHA1PadMessage
    method PadMessage()
      requires Shape() && Open(msg) && 8 * |msg| < LIMIT
      modifies this`index, digest, block
      ensures State() == Digest(msg)
    {
      ghost var head;
      if index > 55 {
        head := PadLong();
      } else {
        head := PadShort();
      }
      ghost var front := block[..56];
      StoreLength();
      assert block[..] == front + BitLength(8 * |msg|);
      ProcessFull(head);
    }

    // Its first branch: complete this block, then zero the start of the next.
    method PadLong() returns (ghost head: seq<Byte>)
      requires Shape() && Open(msg) && index > 55
      modifies this`index, digest, block
      ensures State() == HashBlocks(head)
      ensures head + (block[..56] + BitLength(8 * |msg|)) == msg + Padding(|msg|)
    {
      ghost var i := index;
      head := CloseBlock();
      FillZeros(56);
      ghost var front := block[..56];
      assert front == Zeros(56);
      PaddedLong(msg, blocks, i, head, front);
    }

    method CloseBlock() returns (ghost head: seq<Byte>)
      requires Shape() && Open(msg) && index > 55
      modifies this`index, digest, block
      ensures head == msg[..|msg| - old(index)] + (msg[|msg| - old(index)..] + [0x80] + Zeros(63 - old(index)))
      ensures index == 0 && State() == HashBlocks(head)
    {
      ghost var tail := block[..index] + [0x80] + Zeros(63 - index);
      head := msg[..|msg| - index];
      MarkEnd(64);
      ProcessFull(head);
      assert block[..64] == block[..] == tail;
      head := head + tail;
    }

    // One full buffer, after the blocks hashed so far.
    method ProcessFull(ghost head: seq<Byte>)
      requires Shape() && State() == HashBlocks(head)
      modifies this`index, digest
      ensures index == 0 && State() == HashBlocks(head + block[..])
    {
      HashBlocksSnoc(head, block[..]);
      ProcessMessageBlock();
    }

    // Its second branch: the length fits in this block.
    method PadShort() returns (ghost head: seq<Byte>)
      requires Shape() && Open(msg) && index <= 55
      modifies this`index, digest, block
      ensures State() == HashBlocks(head)
      ensures head + (block[..56] + BitLength(8 * |msg|)) == msg + Padding(|msg|)
    {
      ghost var i := index;
      head := msg[..|msg| - i];
      MarkEnd(56);
      PaddedShort(msg, blocks, i);
    }

    // The end mark and the zeros after it.
    method MarkEnd(limit: nat)
      requires Shape() && index < limit <= 64
      modifies this`index, block
      ensures index == limit
      ensures block[..limit] == old(block[..index]) + [0x80] + Zeros(limit - 1 - old(index))
    {
      block[index] := 0x80;
      index := index + 1;
      assert block[..index] == old(block[..index]) + [0x80];
      FillZeros(limit);
    }

    // The loops that write zero octets up to a given index.
    method FillZeros(limit: nat)
      requires Shape() && index <= limit <= 64
      modifies this`index, block
      ensures index == limit
      ensures block[..limit] == old(block[..index]) + Zeros(limit - old(index))
    {
      while index < limit
        invariant old(index) <= index <= limit
        invariant block[..index] == old(block[..index]) + Zeros(index - old(index))
      {
        block[index] := 0;
        index := index + 1;
        assert block[..index] == block[..index - 1] + [0];
      }
    }

    // The eight octets of the message length in bits.
    method StoreLength()
      requires Shape() && Counts(|msg|)
      modifies block
      ensures block[..56] == old(block[..56])
      ensures block[56..] == BitLength(8 * |msg|)
    {
      block[56] := (lengthHigh / 0x100_0000) % 256;
      block[57] := (lengthHigh / 0x1_0000) % 256;
      block[58] := (lengthHigh / 0x100) % 256;
      block[59] := lengthHigh % 256;
      block[60] := (lengthLow / 0x100_0000) % 256;
      block[61] := (lengthLow / 0x1_0000) % 256;
      block[62] := (lengthLow / 0x100) % 256;
      block[63] := lengthLow % 256;
      TwoWords(lengthHigh, lengthLow);
    }

    // SHA1ProcessMessageBlock
    method ProcessMessageBlock()
      requires Shape()
      modifies this`index, digest
      ensures State() == Compression()(old(State()), block[..]) && index == 0
    {
      var v := State();
      var r := AllRounds(v);
      digest[0] := (digest[0] + r.a) % WORD;
      digest[1] := (digest[1] + r.b) % WORD;
      digest[2] := (digest[2] + r.c) % WORD;
      digest[3] := (digest[3] + r.d) % WORD;
      digest[4] := (digest[4] + r.e) % WORD;
      assert State() == AddFive(v, r);
      index := 0;
    }

    method AllRounds(v: Five) returns (r: Five)
      requires Shape()
      ensures AddFive(v, r) == Compression()(v, block[..])
    {
      var schedule := FillSchedule();
      var w := schedule[..];
      ScheduleUnique(w, block[..]);
      r := Phase1(v, w, v);
      r := Phase2(r, w, v);
      r := Phase3(r, w, v);
      r := Phase4(r, w, v);
      assert w[..80] == w;
      assert AddFive(v, r) == Compress(v, block[..]);
    }

    static method Phase1(v: Five, w: seq<Word32>, ghost h: Five) returns (r: Five)
      requires |w| == 80
      requires v == Rounds(h, w[..0])
      ensures r == Rounds(h, w[..20])
    {
      var a: Word32, b: Word32, c: Word32, d: Word32, e: Word32 := v.a, v.b, v.c, v.d, v.e;
      for t := 0 to 20
        invariant Five(a, b, c, d, e) == Rounds(h, w[..t])
      {
        assert w[..t + 1][..t] == w[..t];
        var a5 := CircularShift(5, a);
        var temp := (a5 + Or(And(b, c), And(Not(b), d)) + e + w[t] + 0x5A827999) % WORD;
        e := d;
        d := c;
        c := CircularShift(30, b);
        b := a;
        a := temp;
      }
      r := Five(a, b, c, d, e);
    }

    static method Phase2(v: Five, w: seq<Word32>, ghost h: Five) returns (r: Five)
      requires |w| == 80
      requires v == Rounds(h, w[..20])
      ensures r == Rounds(h, w[..40])
    {
      var a: Word32, b: Word32, c: Word32, d: Word32, e: Word32 := v.a, v.b, v.c, v.d, v.e;
      for t := 20 to 40
        invariant Five(a, b, c, d, e) == Rounds(h, w[..t])
      {
        assert w[..t + 1][..t] == w[..t];
        var a5 := CircularShift(5, a);
        var temp := (a5 + Xor(Xor(b, c), d) + e + w[t] + 0x6ED9EBA1) % WORD;
        e := d;
        d := c;
        c := CircularShift(30, b);
        b := a;
        a := temp;
      }
      r := Five(a, b, c, d, e);
    }

    static method Phase3(v: Five, w: seq<Word32>, ghost h: Five) returns (r: Five)
      requires |w| == 80
      requires v == Rounds(h, w[..40])
      ensures r == Rounds(h, w[..60])
    {
      var a: Word32, b: Word32, c: Word32, d: Word32, e: Word32 := v.a, v.b, v.c, v.d, v.e;
      for t := 40 to 60
        invariant Five(a, b, c, d, e) == Rounds(h, w[..t])
      {
        assert w[..t + 1][..t] == w[..t];
        var a5 := CircularShift(5, a);
        var temp := (a5 + Or(Or(And(b, c), And(b, d)), And(c, d)) + e + w[t] + 0x8F1BBCDC) % WORD;
        e := d;
        d := c;
        c := CircularShift(30, b);
        b := a;
        a := temp;
      }
      r := Five(a, b, c, d, e);
    }

    static method Phase4(v: Five, w: seq<Word32>, ghost h: Five) returns (r: Five)
      requires |w| == 80
      requires v == Rounds(h, w[..60])
      ensures r == Rounds(h, w[..80])
    {
      var a: Word32, b: Word32, c: Word32, d: Word32, e: Word32 := v.a, v.b, v.c, v.d, v.e;
      for t := 60 to 80
        invariant Five(a, b, c, d, e) == Rounds(h, w[..t])
      {
        assert w[..t + 1][..t] == w[..t];
        var a5 := CircularShift(5, a);
        var temp := (a5 + Xor(Xor(b, c), d) + e + w[t] + 0xCA62C1D6) % WORD;
        e := d;
        d := c;
        c := CircularShift(30, b);
        b := a;
        a := temp;
      }
      r := Five(a, b, c, d, e);
    }

    // The two loops that fill W.
    method FillSchedule() returns (w: array<Word32>)
      requires Shape()
      ensures fresh(w) && w.Length == 80 && IsSchedule(w[..], block[..])
    {
      w := new Word32[80];
      for t := 0 to 16
        invariant forall s :: 0 <= s < t ==>
                    w[s] == BlockWord(block[4 * s], block[4 * s + 1], block[4 * s + 2], block[4 * s + 3])
      {
        w[t] := LoadWord(block[t * 4], block[t * 4 + 1], block[t * 4 + 2], block[t * 4 + 3]);
      }
      for t := 16 to 80
        invariant forall s :: 0 <= s < 16 ==>
                    w[s] == BlockWord(block[4 * s], block[4 * s + 1], block[4 * s + 2], block[4 * s + 3])
        invariant forall s {:trigger w[..s]} :: 16 <= s < t ==> w[s] == NextWord(w[..s])
      {
        ghost var before := w[..];
        w[t] := CircularShift(1, Xor(Xor(Xor(w[t - 3], w[t - 8]), w[t - 14]), w[t - 16]));
        assert forall s :: 0 <= s <= t ==> w[..s] == before[..s];
      }
      assert forall s :: 0 <= s < 80 ==> w[..][..s] == w[..s];
    }

    // The SHA1CircularShift macro.
    static method CircularShift(bits: nat, word: Word32) returns (r: Word32)
      requires 0 < bits < 32
      ensures r == Rotl(bits, word)
    {
      DivSmaller(word, Pow2(32 - bits));
      var left: Word32, right: Word32 := (word * Pow2(bits)) % WORD, word / Pow2(32 - bits);
      ShiftsRotate(bits, word, left, right);
      r := Or(left, right);
    }

    // The four statements that shift and or the octets of one word together.
    static method LoadWord(b0: Byte, b1: Byte, b2: Byte, b3: Byte) returns (w: Word32)
      ensures w == BlockWord(b0, b1, b2, b3)
    {
      var o0: int, o1: int, o2: int, o3: int := b0, b1, b2, b3;
      Powers();
      w := o0 * 0x100_0000;
      JoinLow(o0, o1 * 0x1_0000, 24);
      w := Or(w, o1 * 0x1_0000);
      JoinLow(o0 * 0x100 + o1, o2 * 0x100, 16);
      w := Or(w, o2 * 0x100);
      JoinLow((o0 * 0x100 + o1) * 0x100 + o2, o3, 8);
      w := Or(w, o3);
    }
  }

  lemma NothingHeld(m: seq<Byte>, buffered: seq<Byte>, i: nat, d: Five)
    requires |m| == i == |buffered| == 0 && d == START
    ensures buffered == m[|m| - i..] && d == HashBlocks(m[..|m| - i])
  {
    HashNothing(m[..|m| - i]);
  }

  // Reset, any number of inputs, result: the digest of the whole message, however it was cut, and
  // failure exactly when it has 2^64 bits or more.
  method HashPieces(pieces: seq<seq<Byte>>) returns (ok: bool, d: Five)
    ensures ok <==> 8 * |Concat(pieces)| < LIMIT
    ensures ok ==> d == Digest(Concat(pieces))
  {
    var c := new Context();
    for n := 0 to |pieces|
      invariant c.Valid() && !c.computed && fresh(c) && fresh(c.digest) && fresh(c.block)
      invariant c.corrupted <==> 8 * |Concat(pieces[..n])| >= LIMIT
      invariant !c.corrupted ==> c.msg == Concat(pieces[..n])
    {
      assert pieces[..n + 1][..n] == pieces[..n];
      c.Input(pieces[n]);
    }
    assert pieces[..|pieces|] == pieces;
    ok := c.Result();
    d := c.State();
  }

  // One more octet leaves the whole blocks alone and extends the rest.
  lemma Grown(m: seq<Byte>, m': seq<Byte>, b: Byte, i: nat)
    requires m' == m + [b] && i <= |m|
    ensures m'[..|m'| - (i + 1)] == m[..|m| - i]
    ensures m'[|m'| - (i + 1)..] == m[|m| - i..] + [b]
  {
  }

  lemma ZeroCount(b: nat, i: nat)
    requires i < 64
    ensures (55 - (64 * b + i)) % 64 == if i <= 55 then 55 - i else 119 - i
  {
    var q: int, r: int := if i <= 55 then -(b as int) else -(b as int) - 1, if i <= 55 then 55 - i else 119 - i;
    QuotientIs(55 - (64 * b + i), 64, q, r);
  }

  // With no room for the length, padding completes one block and needs another.
  lemma PaddedLong(m: seq<Byte>, b: nat, i: nat, head: seq<Byte>, front: seq<Byte>)
    requires |m| == 64 * b + i && 55 < i < 64
    requires head == m[..|m| - i] + (m[|m| - i..] + [0x80] + Zeros(63 - i)) && front == Zeros(56)
    ensures head + (front + BitLength(8 * |m|)) == m + Padding(|m|)
  {
    ZeroCount(b, i);
    assert Zeros(63 - i) + front == Zeros(119 - i);
    assert m == m[..|m| - i] + m[|m| - i..];
    assert head + front == m + [0x80] + Zeros(119 - i);
  }

  // Otherwise it fits in the current one.
  lemma PaddedShort(m: seq<Byte>, b: nat, i: nat)
    requires |m| == 64 * b + i && i <= 55
    ensures m + Padding(|m|) ==
              m[..|m| - i] + ((m[|m| - i..] + [0x80] + Zeros(55 - i)) + BitLength(8 * |m|))
  {
    ZeroCount(b, i);
    assert m == m[..|m| - i] + m[|m| - i..];
  }

  lemma DropHigh(x: nat, y: nat)
    ensures (256 * x + y) % 256 == y % 256
  {
  }

  lemma LowOctet0(high: nat, low: nat)
    requires low < WORD
    ensures (high * WORD + low) / WORD == high && (high * WORD + low) % 256 == low % 256
  {
  }

  lemma LowOctet1(high: nat, low: nat)
    requires low < WORD
    ensures ((high * WORD + low) / 256) % 256 == (low / 256) % 256
  {
    assert (high * WORD + low) / 256 == 256 * (high * 0x1_0000) + low / 256;
    DropHigh(high * 0x1_0000, low / 256);
  }

  lemma LowOctet2(high: nat, low: nat)
    requires low < WORD
    ensures ((high * WORD + low) / 0x1_0000) % 256 == (low / 0x1_0000) % 256
  {
    assert (high * WORD + low) / 0x1_0000 == 256 * (high * 0x100) + low / 0x1_0000;
    DropHigh(high * 0x100, low / 0x1_0000);
  }

  lemma LowOctet3(high: nat, low: nat)
    requires low < WORD
    ensures ((high * WORD + low) / 0x100_0000) % 256 == (low / 0x100_0000) % 256
  {
    assert (high * WORD + low) / 0x100_0000 == 256 * high + low / 0x100_0000;
    DropHigh(high, low / 0x100_0000);
  }

  lemma HighOctets(high: nat, low: nat)
    requires low < WORD
    ensures var n := high * WORD + low;
            && n / 0x100_0000_0000_0000 == high / 0x100_0000 && n / 0x1_0000_0000_0000 == high / 0x1_0000
            && n / 0x100_0000_0000 == high / 0x100
  {
    var n := high * WORD + low;
    assert n / WORD == high;
    assert n / WORD / 0x100_0000 == n / 0x100_0000_0000_0000;
    assert n / WORD / 0x1_0000 == n / 0x1_0000_0000_0000;
    assert n / WORD / 0x100 == n / 0x100_0000_0000;
  }

  // The octets of the bit length, taken from the two counter words.
  lemma TwoWords(high: nat, low: nat)
    requires high < WORD && low < WORD
    ensures BitLength(high * WORD + low) ==
              [(high / 0x100_0000) % 256, (high / 0x1_0000) % 256, (high / 0x100) % 256, high % 256,
               (low / 0x100_0000) % 256, (low / 0x1_0000) % 256, (low / 0x100) % 256, low % 256]
  {
    HighOctets(high, low);
    LowOctet0(high, low);
    LowOctet1(high, low);
    LowOctet2(high, low);
    LowOctet3(high, low);
  }
}
