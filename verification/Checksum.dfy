// The Internet checksum of lab4/router/sr_utils.c and its use on IP headers in
// lab4/router/sr_router.c.
module Checksum {
  import opened Bytes
  import Words

  const ONES := 0xffff

  // ---- The sum ---------------------------------------------------------------------------

  function Word(high: nat, low: nat): nat {
    high * 256 + low
  }

  // The 16-bit word at position i; a last odd byte counts as a high byte.
  function WordAt(data: seq<Byte>, i: nat): nat
    requires i < |data|
  {
    Word(data[i], if i + 1 < |data| then data[i + 1] else 0)
  }

  // The true sum of the words from position i on.
  function SumFrom(data: seq<Byte>, i: nat): nat
    decreases |data| - i
  {
    if i >= |data| then 0 else WordAt(data, i) + SumFrom(data, i + 2)
  }

  function Sum(data: seq<Byte>): nat {
    SumFrom(data, 0)
  }

  lemma {:induction false} SumBound(data: seq<Byte>, i: nat)
    requires i <= |data|
    ensures SumFrom(data, i) <= ONES * ((|data| - i + 1) / 2)
    decreases |data| - i
  {
    if i + 1 < |data| {
      SumBound(data, i + 2);
      assert (|data| - i + 1) / 2 == (|data| - (i + 2) + 1) / 2 + 1;
    }
  }

  // The largest buffer whose sum always fits in 32 bits.
  const LONGEST := 131074

  lemma SumFits(data: seq<Byte>)
    requires |data| <= LONGEST
    ensures Sum(data) < Words.WORD
  {
    SumBound(data, 0);
  }

  // ---- Folding ---------------------------------------------------------------------------

  // The one's-complement reading of a sum: 0 only for 0, otherwise 1 to 0xffff.
  function Ones(sum: nat): (r: nat)
    ensures r <= ONES
    ensures r % ONES == sum % ONES && (r == 0 <==> sum == 0)
  {
    if sum == 0 then 0 else (sum - 1) % ONES + 1
  }

  // Ones is the only such reading.
  lemma OnesIs(sum: nat, r: nat)
    requires r <= ONES && r % ONES == sum % ONES && (r == 0 <==> sum == 0)
    ensures r == Ones(sum)
  {
  }

  // ---- The function ----------------------------------------------------------------------

  function Htons(host: Host, x: nat): (r: nat)
    requires x <= ONES
    ensures r <= ONES
  {
    if host.BigEndian? then x else x % 256 * 256 + x / 256
  }

  // The two bytes a 16-bit store leaves in memory.
  function Stored(host: Host, x: nat): (r: seq<Byte>)
    requires x <= ONES
    ensures |r| == 2
  {
    if host.BigEndian? then [x / 256, x % 256] else [x % 256, x / 256]
  }

  // htons followed by a store is network byte order on either machine.
  lemma NetworkOrder(host: Host, x: nat)
    requires x <= ONES
    ensures Stored(host, Htons(host, x)) == [x / 256, x % 256]
    ensures Htons(host, x) == 0 <==> x == 0
    ensures Htons(host, ONES) == ONES
  {
    var high, low := x / 256, x % 256;
    assert (low * 256 + high) / 256 == low && (low * 256 + high) % 256 == high;
  }

  // The checksum in network order: the complement of the reading of the sum, 0 sent as 0xffff.
  function Check(sum: nat): (c: nat)
    ensures 0 < c <= ONES
  {
    if Ones(sum) == ONES then ONES else ONES - Ones(sum)
  }

  // cksum
  method Cksum(host: Host, data: seq<Byte>) returns (r: nat)
    requires |data| <= LONGEST
    ensures 0 < r <= ONES && r == Htons(host, Check(Sum(data)))
  {
    var sum := AddWords(data);
    var folded := Fold(sum);
    var complement := (Words.WORD - 1 - folded) % 0x1_0000;
    assert complement == ONES - folded;
    r := Htons(host, complement);
    NetworkOrder(host, complement);
    if r == 0 {
      r := 0xffff;
    }
  }

  // The summing loop, in 32-bit arithmetic.
  method AddWords(data: seq<Byte>) returns (sum: nat)
    requires |data| <= LONGEST
    ensures sum == Sum(data) < Words.WORD
  {
    SumFits(data);
    sum := 0;
    var at, len: nat := 0, |data|;
    while len >= 2
      invariant at + len == |data| && sum + SumFrom(data, at) == Sum(data)
      decreases len
    {
      NextWord(data, at);
      sum := (sum + Word(data[at], data[at + 1])) % Words.WORD;
      at := at + 2;
      len := len - 2;
    }
    if len > 0 {
      sum := (sum + Word(data[at], 0)) % Words.WORD;
    }
  }

  lemma NextWord(data: seq<Byte>, i: nat)
    requires i + 1 < |data|
    ensures SumFrom(data, i) == Word(data[i], data[i + 1]) + SumFrom(data, i + 2)
  {
  }

  // The folding loop; it ends because the sum shrinks.
  method Fold(start: nat) returns (sum: nat)
    requires start < Words.WORD
    ensures sum == Ones(start)
  {
    sum := start;
    while sum > 0xffff
      invariant sum < Words.WORD && sum % ONES == start % ONES && (sum == 0 <==> start == 0)
      decreases sum
    {
      FoldKeeps(sum);
      sum := sum / 0x1_0000 + sum % 0x1_0000;
    }
    OnesIs(start, sum);
  }

  lemma FoldKeeps(sum: nat)
    requires ONES < sum
    ensures var next := sum / 0x1_0000 + sum % 0x1_0000;
            0 < next < sum && next % ONES == sum % ONES
  {
    var high, low := sum / 0x1_0000, sum % 0x1_0000;
    assert sum == high * ONES + (high + low);
    ModAdd(high, high + low);
  }

  lemma ModAdd(k: nat, x: nat)
    ensures (k * ONES + x) % ONES == x % ONES
  {
    if k > 0 {
      ModAdd(k - 1, x);
      assert k * ONES + x == ((k - 1) * ONES + x) + ONES;
    }
  }

  // ---- The checksum as a number --------------------------------------------------------------

  // An odd buffer counts as if a zero byte followed it.
  function Padded(data: seq<Byte>): (r: seq<Byte>)
    ensures |r| % 2 == 0 && data <= r && |r| <= |data| + 1
    ensures |r| > |data| ==> r[|data|] == 0
  {
    if |data| % 2 == 0 then data else data + [0]
  }

  lemma {:induction false} SumPadded(data: seq<Byte>, i: nat)
    requires i % 2 == 0
    ensures SumFrom(Padded(data), i) == SumFrom(data, i)
    decreases |data| - i
  {
    if i < |data| {
      SumPadded(data, i + 2);
    }
  }

  lemma {:induction false} SumSnoc(data: seq<Byte>, high: Byte, low: Byte, i: nat)
    requires |data| % 2 == 0 && i % 2 == 0 && i <= |data|
    ensures SumFrom(data + [high, low], i) == SumFrom(data, i) + Word(high, low)
    decreases |data| - i
  {
    if i < |data| {
      SumSnoc(data, high, low, i + 2);
    } else {
      assert SumFrom(data + [high, low], i + 2) == 0;
    }
  }

  // The sum and the whole buffer read as one big-endian number agree modulo 0xffff, and are zero
  // together.
  lemma {:induction false} SumIsNumber(data: seq<Byte>)
    requires |data| % 2 == 0
    ensures Sum(data) % ONES == Value(data) % ONES && (Sum(data) == 0 <==> Value(data) == 0)
  {
    if data != [] {
      var init, high, low := data[..|data| - 2], data[|data| - 2], data[|data| - 1];
      SumIsNumber(init);
      assert data == init + [high, low] && init + [high, low] == (init + [high]) + [low];
      SumSnoc(init, high, low, 0);
      ValueSnoc(init, high);
      ValueSnoc(init + [high], low);
      TwoMore(Sum(init), Value(init), Word(high, low));
    }
  }

  lemma TwoMore(sum: nat, number: nat, word: nat)
    requires sum % ONES == number % ONES
    ensures (sum + word) % ONES == (number * 0x1_0000 + word) % ONES
  {
    assert number * 0x1_0000 + word == number * ONES + (number + word);
    ModAdd(number, number + word);
    SameMod(sum, number, word);
  }

  lemma SameMod(a: nat, b: nat, word: nat)
    requires a % ONES == b % ONES
    ensures (a + word) % ONES == (b + word) % ONES
  {
  }

  lemma CheckIs(sum: nat, number: nat, c: nat)
    requires sum % ONES == number % ONES
    ensures c == Check(sum) <==> 0 < c <= ONES && (number + c) % ONES == 0
  {
  }

  // What the checksum is: of the numbers 1 to 0xffff, the one that brings the buffer, read as one
  // big-endian number, to a multiple of 0xffff.
  lemma ChecksumIs(data: seq<Byte>, c: nat)
    ensures c == Check(Sum(data)) <==> 0 < c <= 0xffff && (Value(Padded(data)) + c) % 0xffff == 0
  {
    SumPadded(data, 0);
    SumIsNumber(Padded(data));
    CheckIs(Sum(data), Value(Padded(data)), c);
  }

  // ---- Stamping and checking ---------------------------------------------------------------

  function WithWord(data: seq<Byte>, i: nat, bytes: seq<Byte>): (r: seq<Byte>)
    requires i + 2 <= |data| && |bytes| == 2
    ensures |r| == |data|
  {
    data[i := bytes[0]][i + 1 := bytes[1]]
  }

  // A word at an even place enters the sum by itself.
  lemma {:induction false} SumWithWord(data: seq<Byte>, i: nat, bytes: seq<Byte>, from: nat)
    requires i + 2 <= |data| && |bytes| == 2 && from <= i && (i - from) % 2 == 0
    ensures SumFrom(WithWord(data, i, bytes), from) + WordAt(data, i) ==
            SumFrom(data, from) + Word(bytes[0], bytes[1])
    decreases i - from
  {
    var after := WithWord(data, i, bytes);
    if from == i {
      SameSum(data, after, i + 2);
    } else {
      SumWithWord(data, i, bytes, from + 2);
    }
  }

  lemma {:induction false} SameSum(a: seq<Byte>, b: seq<Byte>, from: nat)
    requires |a| == |b| && forall k :: from <= k < |a| ==> a[k] == b[k]
    ensures SumFrom(a, from) == SumFrom(b, from)
    decreases |a| - from
  {
    if from < |a| {
      SameSum(a, b, from + 2);
    }
  }

  lemma CheckCompletes(sum: nat)
    ensures Ones(sum + Check(sum)) == ONES
  {
  }

  // Storing the checksum of a buffer in its zeroed field makes the whole sum all ones.
  lemma StampedSumsToOnes(host: Host, data: seq<Byte>, i: nat)
    requires i + 2 <= |data| && i % 2 == 0 && data[i] == 0 && data[i + 1] == 0
    ensures Ones(Sum(WithWord(data, i, Stored(host, Htons(host, Check(Sum(data))))))) == ONES
  {
    var c := Check(Sum(data));
    NetworkOrder(host, c);
    SumWithWord(data, i, [c / 256, c % 256], 0);
    CheckCompletes(Sum(data));
  }

  lemma SameCheck(a: nat, b: nat)
    ensures Check(a) == Check(b) <==> a % ONES == b % ONES
  {
  }

  lemma HtonsInjective(host: Host, a: nat, b: nat)
    requires a <= ONES && b <= ONES
    ensures Htons(host, a) == Htons(host, b) <==> a == b
  {
  }

  // Two buffers get the same checksum exactly when their sums agree modulo 0xffff.
  lemma ChecksumsAgree(host: Host, a: seq<Byte>, b: seq<Byte>)
    ensures Htons(host, Check(Sum(a))) == Htons(host, Check(Sum(b))) <==> Sum(a) % ONES == Sum(b) % ONES
  {
    SameCheck(Sum(a), Sum(b));
    HtonsInjective(host, Check(Sum(a)), Check(Sum(b)));
  }

  // So changing one aligned word goes unnoticed only between 0 and 0xffff.
  lemma OneWordChanged(host: Host, data: seq<Byte>, i: nat, bytes: seq<Byte>)
    requires i + 2 <= |data| && i % 2 == 0 && |bytes| == 2
    ensures var was, now := WordAt(data, i), Word(bytes[0], bytes[1]);
            Htons(host, Check(Sum(data))) == Htons(host, Check(Sum(WithWord(data, i, bytes))))
            <==> was == now || (was == 0 && now == ONES) || (was == ONES && now == 0)
  {
    SumWithWord(data, i, bytes, 0);
    ChecksumsAgree(host, data, WithWord(data, i, bytes));
    Congruent(Sum(data), Sum(WithWord(data, i, bytes)), WordAt(data, i), Word(bytes[0], bytes[1]));
  }

  lemma Congruent(a: nat, b: nat, was: nat, now: nat)
    requires b + was == a + now && was <= ONES && now <= ONES
    ensures a % ONES == b % ONES <==> was == now || (was == 0 && now == ONES) || (was == ONES && now == 0)
  {
  }

  // ---- IP headers ------------------------------------------------------------------------

  const HEADER := 20
  const TTL := 8
  const FIELD := 10

  function Zeroed(header: seq<Byte>): (r: seq<Byte>)
    requires |header| == HEADER
    ensures |r| == HEADER
  {
    WithWord(header, FIELD, [0, 0])
  }

  // What the router accepts: the field is what it would itself have written.
  predicate Accepted(host: Host, header: seq<Byte>)
    requires |header| == HEADER
  {
    header[FIELD..FIELD + 2] == Stored(host, Htons(host, Check(Sum(Zeroed(header)))))
  }

  // What RFC 1071 asks: the whole header, field included, sums to all ones.
  predicate Standard(header: seq<Byte>)
    requires |header| == HEADER
  {
    Ones(Sum(header)) == ONES
  }

  // The router accepts exactly the headers the standard accepts whose field is not zero.
  lemma AcceptedIsStandard(host: Host, header: seq<Byte>)
    requires |header| == HEADER
    ensures Accepted(host, header) <==> Standard(header) && WordAt(header, FIELD) != 0
  {
    var c, zeroed := Check(Sum(Zeroed(header))), Zeroed(header);
    NetworkOrder(host, c);
    SumWithWord(header, FIELD, [0, 0], 0);
    OnlyCheckCompletes(Sum(zeroed), WordAt(header, FIELD));
    assert header[FIELD..FIELD + 2] == [header[FIELD], header[FIELD + 1]];
  }

  lemma OnlyCheckCompletes(sum: nat, field: nat)
    requires field <= ONES
    ensures field == Check(sum) <==> Ones(sum + field) == ONES && field != 0
  {
  }

  // The check at the top of sr_handle_ip; the header is left as it came.
  method Verify(host: Host, header: array<Byte>) returns (ok: bool)
    requires header.Length == HEADER
    modifies header
    ensures ok == Accepted(host, old(header[..]))
    ensures ok ==> header[..] == old(header[..])
  {
    ghost var was := header[..];
    var received := header[FIELD..FIELD + 2];
    header[FIELD], header[FIELD + 1] := 0, 0;
    assert header[..] == Zeroed(was);
    var expected := Cksum(host, header[..]);
    var bytes := Stored(host, expected);
    if bytes != received {
      return false;
    }
    header[FIELD], header[FIELD + 1] := bytes[0], bytes[1];
    assert header[..] == was;
    ok := true;
  }

  // An 8-bit decrement, which wraps.
  function OneLess(ttl: Byte): (later: Byte)
    ensures later == if ttl == 0 then 255 else ttl - 1
  {
    (ttl + 255) % 256
  }

  // The rewrite before forwarding: one hop less, and a checksum the next hop accepts.
  method Forward(host: Host, header: array<Byte>)
    requires header.Length == HEADER
    modifies header
    ensures header[8] == OneLess(old(header[8]))
    ensures forall k :: 0 <= k < 20 && k != 8 && k != 10 && k != 11 ==> header[k] == old(header[k])
    ensures Accepted(host, header[..]) && Standard(header[..])
  {
    header[TTL] := OneLess(header[TTL]);
    header[FIELD], header[FIELD + 1] := 0, 0;
    ghost var zeroed := header[..];
    var sum := Cksum(host, header[..]);
    var bytes := Stored(host, sum);
    header[FIELD], header[FIELD + 1] := bytes[0], bytes[1];
    assert header[..] == WithWord(zeroed, FIELD, bytes);
    assert Zeroed(header[..]) == zeroed;
    AcceptedIsStandard(host, header[..]);
  }

  // A header with another TTL.
  function WithTtl(header: seq<Byte>, ttl: Byte): (r: seq<Byte>)
    requires |header| == HEADER
    ensures |r| == HEADER
  {
    WithWord(header, TTL, [ttl, header[TTL + 1]])
  }

  lemma OneLessIs(ttl: Byte, later: Byte)
    requires later + 1 == ttl
    ensures OneLess(ttl) == later
  {
  }

  lemma OneHopSum(header: seq<Byte>, later: Byte)
    requires |header| == HEADER && later + 1 == header[TTL]
    ensures Sum(Zeroed(header)) == Sum(Zeroed(WithTtl(header, later))) + 0x100
  {
    SumWithWord(header, TTL, [later, header[TTL + 1]], 0);
    SumWithWord(header, FIELD, [0, 0], 0);
    SumWithWord(WithTtl(header, later), FIELD, [0, 0], 0);
  }

  // One hop less changes the checksum by 0x0100, modulo 0xffff.
  lemma ForwardedChecksum(header: seq<Byte>, later: Byte)
    requires |header| == HEADER && later + 1 == header[TTL]
    ensures Check(Sum(Zeroed(WithTtl(header, later)))) % ONES == (Check(Sum(Zeroed(header))) + 0x100) % ONES
  {
    OneHopSum(header, later);
    CheckLess(Sum(Zeroed(WithTtl(header, later))));
  }

  lemma CheckLess(sum: nat)
    ensures Check(sum) % ONES == (Check(sum + 0x100) + 0x100) % ONES
  {
    CheckNegates(sum);
    CheckNegates(sum + 0x100);
    Cancel(Check(sum), Check(sum + 0x100) + 0x100, sum);
  }

  lemma CheckNegates(sum: nat)
    ensures (Check(sum) + sum) % ONES == 0
  {
  }

  lemma Cancel(a: nat, b: nat, sum: nat)
    requires (a + sum) % ONES == 0 && (b + sum) % ONES == 0
    ensures a % ONES == b % ONES
  {
  }

  // ---- The bound is sharp ------------------------------------------------------------------

  // n words of all ones.
  function AllOnes(n: nat): (data: seq<Byte>)
    ensures |data| == 2 * n
  {
    seq(2 * n, _ => 0xff)
  }

  lemma {:induction false} SumAllOnes(n: nat, i: nat)
    requires i <= n
    ensures SumFrom(AllOnes(n), 2 * i) == (n - i) * ONES
    decreases n - i
  {
    if i < n {
      SumAllOnes(n, i + 1);
      assert 2 * i + 2 == 2 * (i + 1);
      assert (n - i) * ONES == (n - (i + 1)) * ONES + ONES;
    }
  }

  // One word more than LONGEST allows and the 32-bit sum loses a carry: what is folded is no
  // longer congruent to the true sum.
  lemma LongerOverflows(n: nat)
    requires n == LONGEST / 2 + 1
    ensures Sum(AllOnes(n)) >= Words.WORD && Ones(Sum(AllOnes(n)) % Words.WORD) != Ones(Sum(AllOnes(n)))
  {
    SumAllOnes(n, 0);
  }
}
