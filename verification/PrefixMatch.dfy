// The forwarding lookup, prefix_match of lab4/router/sr_router.c.  Addresses and masks are the
// 32-bit words the machine loads; what that means for prefixes depends on its byte order.
module PrefixMatch {
  import Options
  import opened Words
  import opened RipTable

  const WIDTH: nat := 32

  // ---- Counting leading ones -----------------------------------------------------------------

  // How many of the bits n - 1, n - 2, ... are set before the first one that is not.
  function LeadingFrom(mask: Word, n: nat): (c: nat)
    ensures c <= n
    ensures forall k :: n - c <= k < n ==> Bit(mask, k)
    ensures c < n ==> !Bit(mask, n - c - 1)
  {
    if n > 0 && Bit(mask, n - 1) then 1 + LeadingFrom(mask, n - 1) else 0
  }

  function LeadingOnes(mask: Word): (c: nat)
    ensures c <= WIDTH
  {
    LeadingFrom(mask, WIDTH)
  }

  lemma {:induction false} LeadingIs(mask: Word, n: nat, c: nat)
    requires c <= n && (forall k: nat :: n - c <= k < n ==> Bit(mask, k)) && (c < n ==> !Bit(mask, n - c - 1))
    ensures LeadingFrom(mask, n) == c
  {
    if c > 0 {
      LeadingIs(mask, n - 1, c - 1);
    }
  }

  lemma {:induction false} BitOfPower(n: nat, k: nat)
    ensures Bit(Pow2(n), k) <==> k == n
  {
    if n > 0 {
      assert Pow2(n) / 2 == Pow2(n - 1);
      if k > 0 {
        BitOfPower(n - 1, k - 1);
      }
    } else if k > 0 {
      ZeroHasNoBits(k - 1);
    }
  }

  lemma {:induction false} SomeBit(a: Word) returns (k: nat)
    requires a > 0
    ensures Bit(a, k)
  {
    if a % 2 == 1 {
      k := 0;
    } else {
      var rest := SomeBit(a / 2);
      k := rest + 1;
    }
  }

  // A one-bit word tests one bit.
  lemma TestsOneBit(n: nat, mask: Word)
    requires mask >= 0
    ensures BitAnd(Pow2(n), mask) != 0 <==> Bit(mask, n)
  {
    var both := BitAnd(Pow2(n), mask);
    BitAndBits(Pow2(n), mask, n);
    BitOfPower(n, n);
    if both == 0 {
      ZeroHasNoBits(n);
    } else {
      var k := SomeBit(both);
      BitAndBits(Pow2(n), mask, k);
      BitOfPower(n, k);
    }
  }

  // The inner loop: an 8-bit counter and a bit shifted down from the top.
  method CountLeading(mask: Word32) returns (size: nat)
    ensures size == LeadingOnes(mask)
  {
    size := 0;
    var checker: nat := 0x8000_0000;
    ghost var left: nat := WIDTH;
    TopBit();
    while checker != 0 && BitAnd(checker, mask) != 0
      invariant left <= WIDTH && size == WIDTH - left && IsChecker(checker, left)
      invariant forall k :: left <= k < WIDTH ==> Bit(mask, k)
      decreases left
    {
      TestsOneBit(left - 1, mask);
      HalfPower(left - 1);
      size := (size + 1) % 256;
      checker := checker / 2;
      left := left - 1;
    }
    if left > 0 {
      TestsOneBit(left - 1, mask);
    }
    LeadingIs(mask, WIDTH, size);
  }

  // The bit about to be tested, 0 after the last.
  ghost predicate IsChecker(checker: nat, left: nat) {
    checker == if left > 0 then Pow2(left - 1) else 0
  }

  lemma HalfPower(n: nat)
    ensures Pow2(n) / 2 == if n > 0 then Pow2(n - 1) else 0
  {
  }

  lemma TopBit()
    ensures Pow2(WIDTH - 1) == 0x8000_0000
  {
    Powers();
  }

  // ---- The lookup ------------------------------------------------------------------------------

  predicate Hits(e: RtEntry, addr: Word) {
    Net(addr, e.mask) == NetOf(e) && e.metric < INFINITY
  }

  ghost predicate WordTable(table: seq<RtEntry>) {
    forall e :: e in table ==> 0 <= e.mask < WORD
  }

  // The earliest of the live matching entries whose masks have the most leading ones.
  ghost predicate IsBest(table: seq<RtEntry>, addr: Word, i: nat) {
    && i < |table| && Hits(table[i], addr)
    && forall j :: 0 <= j < |table| && Hits(table[j], addr) ==>
         && LeadingOnes(table[j].mask) <= LeadingOnes(table[i].mask)
         && (j < i ==> LeadingOnes(table[j].mask) < LeadingOnes(table[i].mask))
  }

  // prefix_match; null exactly when no live entry matches.
  method PrefixMatch(table: seq<RtEntry>, addr: Word) returns (ans: Options.Option<nat>)
    requires WordTable(table)
    ensures match ans
            case None => forall j :: 0 <= j < |table| ==> !Hits(table[j], addr)
            case Some(i) => IsBest(table, addr, i)
  {
    var longest: int := -1;
    ans := Options.None;
    for at: nat := 0 to |table|
      invariant ans.None? ==> longest == -1 && forall j :: 0 <= j < at ==> !Hits(table[j], addr)
      invariant ans.Some? ==> ans.value < at && longest == LeadingOnes(table[ans.value].mask)
      invariant ans.Some? ==> IsBest(table[..at], addr, ans.value)
    {
      var e := table[at];
      assert table[..at + 1] == table[..at] + [e];
      assert e in table;
      var left := BitAnd(addr, e.mask);
      var right := BitAnd(e.dest, e.mask);
      if left == right && e.metric < INFINITY {
        var size := CountLeading(e.mask);
        if size > longest {
          longest := size;
          ans := Options.Some(at);
        }
      }
    }
    assert table[..|table|] == table;
  }

  lemma BestIsUnique(table: seq<RtEntry>, addr: Word, i: nat, j: nat)
    requires IsBest(table, addr, i) && IsBest(table, addr, j)
    ensures i == j
  {
  }

  lemma {:induction false} SomeBest(table: seq<RtEntry>, addr: Word, e: RtEntry) returns (i: nat)
    requires e in table && Hits(e, addr)
    ensures IsBest(table, addr, i)
  {
    var n := |table| - 1;
    var init, last := table[..n], table[n];
    assert table == init + [last];
    if h: RtEntry :| h in init && Hits(h, addr) {
      i := SomeBest(init, addr, h);
      if Hits(last, addr) && LeadingOnes(table[i].mask) < LeadingOnes(last.mask) {
        i := n;
      }
    } else {
      i := n;
    }
  }

  // Something is found exactly when some entry of metric at most 15 agrees with the address
  // under its mask, and what is found is such an entry.
  lemma FindsExactly(table: seq<RtEntry>, addr: Word)
    ensures (exists i: nat :: IsBest(table, addr, i)) <==>
            exists e :: e in table && e.metric <= 15 && BitAnd(addr, e.mask) == BitAnd(e.dest, e.mask)
    ensures forall i: nat :: IsBest(table, addr, i) ==>
              table[i].metric <= 15 && BitAnd(addr, table[i].mask) == BitAnd(table[i].dest, table[i].mask)
  {
    if e :| e in table && e.metric <= 15 && BitAnd(addr, e.mask) == BitAnd(e.dest, e.mask) {
      var i := SomeBest(table, addr, e);
    }
    if i: nat :| IsBest(table, addr, i) {
      assert table[i] in table;
    }
  }

  // ---- Masks read from the most significant bit ----------------------------------------------

  // The mask of an n-bit prefix, as a number.
  function MaskOf(n: nat): Word32 {
    FromBits((k: nat) => k + n >= WIDTH)
  }

  lemma MaskBits(n: nat, k: nat)
    requires k < WIDTH
    ensures Bit(MaskOf(n), k) <==> k + n >= WIDTH
  {
    var bit := (k: nat) => k + n >= WIDTH;
    assert HasBits(MaskOf(n), bit);
  }

  lemma MaskLength(n: nat)
    requires n <= WIDTH
    ensures LeadingOnes(MaskOf(n)) == n
  {
    forall k: nat | k < WIDTH
      ensures Bit(MaskOf(n), k) <==> k + n >= WIDTH
    {
      MaskBits(n, k);
    }
    LeadingIs(MaskOf(n), WIDTH, n);
  }

  lemma {:induction false} SameWord(a: Word, b: Word)
    requires a >= 0 && b >= 0 && forall i: nat :: Bit(a, i) <==> Bit(b, i)
    ensures a == b
    decreases a + b
  {
    if a > 0 || b > 0 {
      assert Bit(a, 0) <==> Bit(b, 0);
      forall i: nat
        ensures Bit(a / 2, i) <==> Bit(b / 2, i)
      {
        assert Bit(a, i + 1) <==> Bit(b, i + 1);
      }
      SameWord(a / 2, b / 2);
    }
  }

  lemma NetBits(addr: Word, n: nat, k: nat)
    requires addr >= 0 && n <= WIDTH
    ensures Bit(Net(addr, MaskOf(n)), k) <==> Bit(addr, k) && WIDTH - n <= k < WIDTH
  {
    BitAndBits(addr, MaskOf(n), k);
    if k < WIDTH {
      MaskBits(n, k);
    } else {
      var width := WIDTH;
      WordWidth(width);
      NoHighBits(MaskOf(n), k, width);
    }
  }

  ghost predicate SamePrefix(a: Word, b: Word, n: nat) {
    forall k: nat :: WIDTH - n <= k < WIDTH ==> (Bit(a, k) <==> Bit(b, k))
  }

  // An entry for an n-bit prefix matches exactly the addresses with the same first n bits.
  lemma MatchIsPrefix(addr: Word, dest: Word, n: nat)
    requires addr >= 0 && dest >= 0 && n <= WIDTH
    ensures Net(addr, MaskOf(n)) == Net(dest, MaskOf(n)) <==> SamePrefix(addr, dest, n)
  {
    if Net(addr, MaskOf(n)) == Net(dest, MaskOf(n)) {
      forall k: nat | WIDTH - n <= k < WIDTH
        ensures Bit(addr, k) <==> Bit(dest, k)
      {
        NetBits(addr, n, k);
        NetBits(dest, n, k);
      }
    } else if SamePrefix(addr, dest, n) {
      forall k: nat
        ensures Bit(Net(addr, MaskOf(n)), k) <==> Bit(Net(dest, MaskOf(n)), k)
      {
        NetBits(addr, n, k);
        NetBits(dest, n, k);
      }
      SameWord(Net(addr, MaskOf(n)), Net(dest, MaskOf(n)));
    }
  }

  // Every entry's mask is that of a prefix, of the length lens gives.
  ghost predicate Prefixes(table: seq<RtEntry>, lens: seq<nat>) {
    |lens| == |table| &&
    forall j :: 0 <= j < |table| ==> lens[j] <= WIDTH && table[j].mask == MaskOf(lens[j]) && table[j].dest >= 0
  }

  // i is a longest live match.
  ghost predicate IsLongest(table: seq<RtEntry>, lens: seq<nat>, addr: Word, i: nat)
    requires |lens| == |table|
  {
    && i < |table| && Hits(table[i], addr)
    && forall j :: 0 <= j < |table| && Hits(table[j], addr) ==> lens[j] <= lens[i]
  }

  // On a big-endian machine the lookup is longest-prefix match: nothing that matches is more
  // specific, and whatever else matches covers every address the chosen entry covers.
  lemma LongestPrefix(table: seq<RtEntry>, lens: seq<nat>, addr: Word, i: nat)
    requires Prefixes(table, lens) && IsBest(table, addr, i) && addr >= 0
    ensures IsLongest(table, lens, addr, i)
    ensures forall j, other :: 0 <= j < |table| && other >= 0 && Hits(table[j], addr) && Hits(table[i], other) ==>
              Hits(table[j], other)
  {
    forall j | 0 <= j < |table|
      ensures LeadingOnes(table[j].mask) == lens[j]
    {
      MaskLength(lens[j]);
    }
    forall j, other | 0 <= j < |table| && other >= 0 && Hits(table[j], addr) && Hits(table[i], other)
      ensures Hits(table[j], other)
    {
      MatchIsPrefix(addr, table[i].dest, lens[i]);
      MatchIsPrefix(other, table[i].dest, lens[i]);
      MatchIsPrefix(addr, table[j].dest, lens[j]);
      MatchIsPrefix(other, table[j].dest, lens[j]);
    }
  }

  // ---- Masks as a little-endian machine loads them ---------------------------------------------

  // A network-order word loaded by a little-endian machine: its bytes in the other order.
  function Swapped(x: Word): Word32 {
    FromBits((k: nat) => k < WIDTH && Bit(x, Mirror(k)))
  }

  // Where bit k of the loaded word comes from.
  function Mirror(k: nat): (m: nat)
    requires k < WIDTH
    ensures m < WIDTH
  {
    8 * (3 - k / 8) + k % 8
  }

  lemma SwappedBits(n: nat, k: nat)
    requires k < WIDTH
    ensures Bit(Swapped(MaskOf(n)), k) <==> Mirror(k) + n >= WIDTH
  {
    var x := MaskOf(n);
    var bit := (k: nat) => k < WIDTH && Bit(x, Mirror(k));
    assert HasBits(Swapped(x), bit);
    MaskBits(n, Mirror(k));
  }

  // What the loop counts for an n-bit prefix there: nothing up to 24 bits.
  function LittleOnes(n: nat): nat {
    if n <= 24 then 0 else if n < WIDTH then n - 24 else WIDTH
  }

  lemma LittleLength(n: nat)
    requires n <= WIDTH
    ensures LeadingOnes(Swapped(MaskOf(n))) == LittleOnes(n)
  {
    forall k: nat | k < WIDTH
      ensures Bit(Swapped(MaskOf(n)), k) <==> Mirror(k) + n >= WIDTH
    {
      SwappedBits(n, k);
    }
    LeadingIs(Swapped(MaskOf(n)), WIDTH, LittleOnes(n));
  }

  ghost predicate LoadedPrefixes(table: seq<RtEntry>, lens: seq<nat>) {
    |lens| == |table| && forall j :: 0 <= j < |table| ==> lens[j] <= WIDTH && table[j].mask == Swapped(MaskOf(lens[j]))
  }

  ghost predicate IsFirst(table: seq<RtEntry>, addr: Word, i: nat) {
    i < |table| && Hits(table[i], addr) && forall j :: 0 <= j < i ==> !Hits(table[j], addr)
  }

  lemma LoadedLength(table: seq<RtEntry>, lens: seq<nat>, j: nat)
    requires LoadedPrefixes(table, lens) && j < |table|
    ensures LeadingOnes(table[j].mask) == LittleOnes(lens[j])
  {
    LittleLength(lens[j]);
  }

  lemma LongOneFound(table: seq<RtEntry>, lens: seq<nat>, addr: Word, i: nat, long: nat)
    requires LoadedPrefixes(table, lens) && IsBest(table, addr, i)
    requires long < |table| && Hits(table[long], addr) && lens[long] > 24
    ensures IsLongest(table, lens, addr, i)
  {
    LoadedLength(table, lens, i);
    LoadedLength(table, lens, long);
    forall j: nat | j < |table| && Hits(table[j], addr)
      ensures lens[j] <= lens[i]
    {
      LoadedLength(table, lens, j);
    }
  }

  lemma ShortOnesInOrder(table: seq<RtEntry>, lens: seq<nat>, addr: Word, i: nat, first: nat)
    requires LoadedPrefixes(table, lens) && IsBest(table, addr, i) && IsFirst(table, addr, first)
    requires forall j :: 0 <= j < |table| && Hits(table[j], addr) ==> lens[j] <= 24
    ensures i == first
  {
    LoadedLength(table, lens, i);
    LoadedLength(table, lens, first);
  }

  // Exactly when the lookup still finds a longest match there: when one of more than 24 bits
  // matches, or the first match happens to be a longest one.
  lemma LittleEndianLookup(table: seq<RtEntry>, lens: seq<nat>, addr: Word, i: nat, first: nat)
    requires LoadedPrefixes(table, lens) && IsBest(table, addr, i) && IsFirst(table, addr, first)
    ensures IsLongest(table, lens, addr, i) <==>
            || (exists j :: 0 <= j < |table| && Hits(table[j], addr) && lens[j] > 24)
            || IsLongest(table, lens, addr, first)
  {
    if j: nat :| j < |table| && Hits(table[j], addr) && lens[j] > 24 {
      LongOneFound(table, lens, addr, i, j);
    } else {
      ShortOnesInOrder(table, lens, addr, i, first);
    }
  }

  lemma LoadedNetBits(addr: Word, n: nat, k: nat)
    requires addr >= 0
    ensures Bit(Net(addr, Swapped(MaskOf(n))), k) <==> k < WIDTH && Mirror(k) + n >= WIDTH && Bit(addr, k)
  {
    BitAndBits(addr, Swapped(MaskOf(n)), k);
    if k < WIDTH {
      SwappedBits(n, k);
    } else {
      var width := WIDTH;
      WordWidth(width);
      NoHighBits(Swapped(MaskOf(n)), k, width);
    }
  }

  // Addresses that agree on l bits agree on fewer.
  lemma ShorterAgree(a: Word, b: Word, n: nat, l: nat)
    requires a >= 0 && b >= 0 && n <= l
    requires Net(a, Swapped(MaskOf(l))) == Net(b, Swapped(MaskOf(l)))
    ensures Net(a, Swapped(MaskOf(n))) == Net(b, Swapped(MaskOf(n)))
  {
    forall k: nat
      ensures Bit(Net(a, Swapped(MaskOf(n))), k) <==> Bit(Net(b, Swapped(MaskOf(n))), k)
    {
      LoadedNetBits(a, n, k);
      LoadedNetBits(b, n, k);
      LoadedNetBits(a, l, k);
      LoadedNetBits(b, l, k);
    }
    SameWord(Net(a, Swapped(MaskOf(n))), Net(b, Swapped(MaskOf(n))));
  }

  // No live prefix of at most 24 bits is listed after a shorter live one that covers it.
  ghost predicate InOrder(table: seq<RtEntry>, lens: seq<nat>)
    requires |lens| == |table|
  {
    forall i, j :: 0 <= i < j < |table| && lens[i] < lens[j] <= 24 && table[j].metric < INFINITY ==>
      !Hits(table[i], table[j].dest)
  }

  // A table in that order is looked up correctly for every address.
  lemma OrderedTablesWork(table: seq<RtEntry>, lens: seq<nat>, addr: Word, i: nat)
    requires LoadedPrefixes(table, lens) && InOrder(table, lens) && IsBest(table, addr, i)
    requires addr >= 0 && forall j :: 0 <= j < |table| ==> table[j].dest >= 0
    ensures IsLongest(table, lens, addr, i)
  {
    if j: nat :| j < |table| && Hits(table[j], addr) && lens[j] > 24 {
      LongOneFound(table, lens, addr, i, j);
    } else {
      var first := FirstHit(table, addr, 0);
      ShortOnesInOrder(table, lens, addr, i, first);
      forall j: nat | j < |table| && Hits(table[j], addr)
        ensures lens[j] <= lens[first]
      {
        if lens[first] < lens[j] {
          ShorterAgree(addr, table[j].dest, lens[first], lens[j]);
          assert Hits(table[first], table[j].dest);
        }
      }
    }
  }

  function FirstHit(table: seq<RtEntry>, addr: Word, from: nat): (i: nat)
    requires exists k :: from <= k < |table| && Hits(table[k], addr)
    ensures from <= i < |table| && Hits(table[i], addr) && forall j :: from <= j < i ==> !Hits(table[j], addr)
    decreases |table| - from
  {
    if Hits(table[from], addr) then from else FirstHit(table, addr, from + 1)
  }

  // A less specific route that comes first wins over a more specific one: a route for the
  // first 8 bits of an address, listed before one for its first 16 bits, is chosen.
  lemma ShortPrefixWins(addr: Word)
    ensures var wide := RtEntry(addr, 0, Swapped(MaskOf(8)), "eth1", 1, 0);
            var narrow := RtEntry(addr, 0, Swapped(MaskOf(16)), "eth2", 1, 0);
            IsBest([wide, narrow], addr, 0) && !IsLongest([wide, narrow], [8, 16], addr, 0)
  {
    var wide := RtEntry(addr, 0, Swapped(MaskOf(8)), "eth1", 1, 0);
    var narrow := RtEntry(addr, 0, Swapped(MaskOf(16)), "eth2", 1, 0);
    LittleLength(8);
    LittleLength(16);
    assert [8, 16][1] > [8, 16][0] && Hits([wide, narrow][1], addr);
  }
}
