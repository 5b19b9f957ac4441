// The hardware-information message: printed by lab5/pox_module/pwospf/VNSProtocol.py, read by
// sr_handle_hwinfo in lab4/router/sr_vns_comm.c into the lists of lab4/router/sr_if.c.
module HwInfo {
  import opened Options
  import opened Bytes
  import Framing
  import Words

  const NAMELEN: nat := 32
  const ENTRY: nat := 36
  const HEADER: nat := 8

  const HWINTERFACE: nat := 1
  const HWSTATIC: nat := 2
  const HWSUBNET: nat := 4
  const HWETHER: nat := 32
  const HWETHIP: nat := 64
  const HWMASK: nat := 128

  // ---- The printer -------------------------------------------------------------------------

  datatype Info = Info(name: seq<Byte>, mac: seq<Byte>, ip: seq<Byte>, mask: seq<Byte>, staticFlag: nat)

  // The arguments of the constructor.
  datatype Given = Given(name: seq<Byte>, mac: seq<Byte>, ip: seq<Byte>, mask: seq<Byte>, staticFlag: nat)

  predicate RightLengths(g: Given) {
    |g.mac| == 6 && |g.ip| == 4 && |g.mask| == 4
  }

  function InfoOf(g: Given): Info {
    Info(g.name, g.mac, g.ip, g.mask, g.staticFlag)
  }

  // The constructor: three checks, each of which raises when it fails.
  method MakeInfo(g: Given) returns (v: Option<Info>)
    ensures v == if RightLengths(g) then Some(InfoOf(g)) else None
  {
    if |g.mac| != 6 {
      return None;
    }
    if |g.ip| != 4 {
      return None;
    }
    if |g.mask| != 4 {
      return None;
    }
    v := Some(Info(g.name, g.mac, g.ip, g.mask, g.staticFlag));
  }

  // Making a list of interfaces: none is made if one constructor raises.
  method MakeAll(given: seq<Given>) returns (infos: Option<seq<Info>>)
    ensures infos.Some? <==> forall g :: g in given ==> RightLengths(g)
    ensures infos.Some? ==>
              && |infos.value| == |given|
              && forall k :: 0 <= k < |given| ==> infos.value[k] == InfoOf(given[k])
  {
    var made: seq<Info> := [];
    for k := 0 to |given|
      invariant |made| == k && forall j :: 0 <= j < k ==> RightLengths(given[j]) && made[j] == InfoOf(given[j])
    {
      var v := MakeInfo(given[k]);
      if v == None {
        assert given[k] in given;
        return None;
      }
      made := made + [v.value];
    }
    infos := Some(made);
  }

  predicate WellFormed(v: Info) {
    |v.mac| == 6 && |v.ip| == 4 && |v.mask| == 4
  }

  // struct's "ns": cut or padded with zeros to n bytes.
  function Fixed(s: seq<Byte>, n: nat): (r: seq<Byte>)
    ensures |r| == n
  {
    if |s| >= n then s[..n] else s + Zeros(n - |s|)
  }

  // htonl on a little-endian machine.
  function Htonl(x: nat): nat {
    x % 256 * 0x100_0000 + x / 256 % 256 * 0x1_0000 + x / 0x1_0000 % 256 * 256 + x / 0x100_0000 % 256
  }

  // VNSInterface.pack: one struct format of six keys and values.
  function PackInfo(v: Info): seq<Byte> {
    (Field(HWINTERFACE, 4) + Fixed(v.name, 32)) + (
    (Field(HWSTATIC, 4) + (Field(Htonl(v.staticFlag), 4) + Fixed([], 28))) + (
    (Field(HWETHER, 4) + Fixed(v.mac, 32)) + (
    (Field(HWETHIP, 4) + (Fixed(v.ip, 4) + Fixed([], 28))) + (
    (Field(HWSUBNET, 4) + (Field(0, 4) + Fixed([], 28))) + (
    (Field(HWMASK, 4) + (Fixed(v.mask, 4) + Fixed([], 28))))))))
  }

  // VNSHardwareInfo.pack
  function PackBody(infos: seq<Info>): seq<Byte> {
    if infos == [] then [] else PackInfo(infos[0]) + PackBody(infos[1..])
  }

  const KIND: nat := 16

  function Wire(): Framing.Format {
    Framing.Format(4, 4, Value)
  }

  // ---- Entries -------------------------------------------------------------------------------

  datatype Entry = Entry(key: nat, value: seq<Byte>)

  ghost predicate ValidEntry(e: Entry) {
    e.key < Pow256(4) && |e.value| == 32
  }

  function Spell(e: Entry): seq<Byte> {
    Field(e.key, 4) + e.value
  }

  function SpellAll(entries: seq<Entry>): seq<Byte> {
    if entries == [] then [] else Spell(entries[0]) + SpellAll(entries[1..])
  }

  function Entries(v: Info): (r: seq<Entry>)
    ensures |r| == 6
  {
    [ Entry(HWINTERFACE, Fixed(v.name, 32)),
      Entry(HWSTATIC, Field(Htonl(v.staticFlag), 4) + Fixed([], 28)),
      Entry(HWETHER, Fixed(v.mac, 32)),
      Entry(HWETHIP, Fixed(v.ip, 4) + Fixed([], 28)),
      Entry(HWSUBNET, Field(0, 4) + Fixed([], 28)),
      Entry(HWMASK, Fixed(v.mask, 4) + Fixed([], 28)) ]
  }

  function AllEntries(infos: seq<Info>): seq<Entry> {
    if infos == [] then [] else Entries(infos[0]) + AllEntries(infos[1..])
  }

  ghost predicate AllValid(entries: seq<Entry>) {
    forall k :: 0 <= k < |entries| ==> ValidEntry(entries[k])
  }

  lemma {:induction false} SpellConcat(a: seq<Entry>, b: seq<Entry>)
    ensures SpellAll(a + b) == SpellAll(a) + SpellAll(b)
  {
    if a == [] {
      assert a + b == b;
    } else {
      assert (a + b)[1..] == a[1..] + b;
      SpellConcat(a[1..], b);
    }
  }

  lemma SpellOne(e: Entry)
    ensures SpellAll([e]) == Spell(e)
  {
    assert [e][1..] == [];
  }

  lemma SpellMore(e: Entry, rest: seq<Entry>)
    ensures SpellAll([e] + rest) == Spell(e) + SpellAll(rest)
  {
    assert ([e] + rest)[1..] == rest;
  }

  lemma SpellSix(a: Entry, b: Entry, c: Entry, d: Entry, e: Entry, f: Entry)
    ensures SpellAll([a, b, c, d, e, f]) ==
            Spell(a) + (Spell(b) + (Spell(c) + (Spell(d) + (Spell(e) + Spell(f)))))
  {
    SpellOne(f);
    SpellMore(e, [f]);
    SpellMore(d, [e] + [f]);
    SpellMore(c, [d] + ([e] + [f]));
    SpellMore(b, [c] + ([d] + ([e] + [f])));
    SpellMore(a, [b] + ([c] + ([d] + ([e] + [f]))));
    assert [a, b, c, d, e, f] == [a] + ([b] + ([c] + ([d] + ([e] + [f]))));
  }

  // The struct format of the printer is six entries in a row.
  lemma PackedIsSpelled(v: Info)
    ensures PackInfo(v) == SpellAll(Entries(v))
  {
    var e := Entries(v);
    SpellSix(e[0], e[1], e[2], e[3], e[4], e[5]);
    assert e == [e[0], e[1], e[2], e[3], e[4], e[5]];
  }

  lemma {:induction false} BodyIsSpelled(infos: seq<Info>)
    ensures PackBody(infos) == SpellAll(AllEntries(infos))
  {
    if infos != [] {
      PackedIsSpelled(infos[0]);
      BodyIsSpelled(infos[1..]);
      SpellConcat(Entries(infos[0]), AllEntries(infos[1..]));
    }
  }

  lemma {:induction false} SpelledSize(entries: seq<Entry>)
    requires AllValid(entries)
    ensures |SpellAll(entries)| == ENTRY * |entries|
  {
    if entries != [] {
      SpelledSize(entries[1..]);
    }
  }

  // Entry i starts 36 * i bytes in.
  lemma {:induction false} SpelledAt(entries: seq<Entry>, i: nat)
    requires AllValid(entries) && i < |entries|
    ensures ENTRY * i + ENTRY <= |SpellAll(entries)|
    ensures SpellAll(entries)[ENTRY * i..ENTRY * i + ENTRY] == Spell(entries[i])
  {
    SpelledSize(entries);
    var rest := SpellAll(entries[1..]);
    if i > 0 {
      SpelledAt(entries[1..], i - 1);
      assert SpellAll(entries)[ENTRY * i..ENTRY * i + ENTRY] == rest[ENTRY * (i - 1)..ENTRY * (i - 1) + ENTRY];
    }
  }

  lemma {:induction false} EntriesValid(infos: seq<Info>)
    ensures AllValid(AllEntries(infos)) && |AllEntries(infos)| == 6 * |infos|
  {
    if infos != [] {
      EntriesValid(infos[1..]);
      KeysFit();
    }
  }

  lemma KeysFit()
    ensures Pow256(4) == 0x1_0000_0000
  {
  }

  lemma FieldOfBytes(b3: Byte, b2: Byte, b1: Byte, b0: Byte)
    ensures Field(((b3 * 256 + b2) * 256 + b1) * 256 + b0, 4) == [b3, b2, b1, b0]
  {
    var n3, n2, n1: nat := b3, b3 * 256 + b2, (b3 * 256 + b2) * 256 + b1;
    assert Field(n3 / 256, 0) == [];
    assert Field(n3, 1) == [b3];
    assert Field(n2, 2) == [b3, b2];
    assert Field(n1, 3) == [b3, b2, b1];
  }

  lemma HtonlSwaps(x: nat, b3: Byte, b2: Byte, b1: Byte, b0: Byte)
    requires x == ((b3 * 256 + b2) * 256 + b1) * 256 + b0
    ensures Htonl(x) == ((b0 * 256 + b1) * 256 + b2) * 256 + b3
  {
    var x1, x2 := (b3 * 256 + b2) * 256 + b1, b3 * 256 + b2;
    Words.QuotientIs(x, 0x100, x1, b0);
    Words.QuotientIs(x, 0x1_0000, x2, b1 * 256 + b0);
    Words.QuotientIs(x, 0x100_0000, b3, (b2 * 256 + b1) * 256 + b0);
    Words.QuotientIs(x1, 0x100, x2, b1);
    Words.QuotientIs(x2, 0x100, b3, b2);
  }

  // Swapped by htonl and again by the format, the flag goes out lowest byte first.
  lemma FlagBytes(x: nat, b3: Byte, b2: Byte, b1: Byte, b0: Byte)
    requires x == ((b3 * 256 + b2) * 256 + b1) * 256 + b0
    ensures Field(Htonl(x), 4) == [b0, b1, b2, b3]
  {
    HtonlSwaps(x, b3, b2, b1, b0);
    FieldOfBytes(b0, b1, b2, b3);
  }

  lemma Within(p: seq<Byte>, at: nat, len: nat, from: nat, to: nat)
    requires at + len <= |p| && from <= to <= len
    ensures p[at..at + len][from..to] == p[at + from..at + to]
  {
    var part := p[at..at + len];
    assert forall k :: from <= k < to ==> part[k] == p[at + k];
  }

  lemma SpelledParts(e: Entry, n: nat)
    requires ValidEntry(e) && n <= 32
    ensures |Spell(e)| == ENTRY && Value(Spell(e)[0..4]) == e.key && Spell(e)[4..4 + n] == e.value[..n]
  {
    assert Spell(e)[0..4] == Field(e.key, 4);
    FieldValue(e.key, 4);
  }

  lemma EntryPlace(p: seq<Byte>, at: nat, e: Entry, n: nat)
    requires at + ENTRY <= |p| && p[at..at + ENTRY] == Spell(e) && ValidEntry(e) && n <= 32
    ensures Value(p[at..at + 4]) == e.key && p[at + 4..at + 4 + n] == e.value[..n]
  {
    SpelledParts(e, n);
    Within(p, at, ENTRY, 0, 4);
    Within(p, at, ENTRY, 4, 4 + n);
  }

  // Where entry i of a printed interface lies.
  lemma PackedPlace(v: Info, i: nat)
    requires i < 6
    ensures |PackInfo(v)| == 216 && PackInfo(v)[ENTRY * i..ENTRY * i + ENTRY] == Spell(Entries(v)[i])
  {
    PackedIsSpelled(v);
    SixAreValid(v);
    SpelledSize(Entries(v));
    SpelledAt(Entries(v), i);
  }

  lemma PackedEntry(v: Info, i: nat, e: Entry, n: nat)
    requires i < 6 && n <= 32 && e == Entries(v)[i] && ValidEntry(e)
    ensures var p, at := PackInfo(v), ENTRY * i;
            && |p| == 216
            && Value(p[at..at + 4]) == e.key && p[at + 4..at + 4 + n] == e.value[..n]
  {
    PackedPlace(v, i);
    EntryPlace(PackInfo(v), ENTRY * i, e, n);
  }

  // The layout of the printer's struct: each entry's key, and its value.
  lemma PackedLayout(v: Info, b3: Byte, b2: Byte, b1: Byte, b0: Byte)
    requires WellFormed(v) && v.staticFlag == ((b3 * 256 + b2) * 256 + b1) * 256 + b0
    ensures var p := PackInfo(v);
            && |p| == 216
            && Value(p[0..4]) == 1 && p[4..36] == Fixed(v.name, 32)
            && Value(p[36..40]) == 2 && p[40..44] == [b0, b1, b2, b3]
            && Value(p[72..76]) == 32 && p[76..82] == v.mac
            && Value(p[108..112]) == 64 && p[112..116] == v.ip
            && Value(p[144..148]) == 4 && p[148..152] == [0, 0, 0, 0]
            && Value(p[180..184]) == 128 && p[184..188] == v.mask
  {
    PackedAddresses(v);
    PackedFlag(v, b3, b2, b1, b0);
    var name := Entries(v)[0];
    SixAreValid(v);
    PackedEntry(v, 0, name, 32);
    assert name.value[..32] == name.value;
  }

  lemma PackedAddresses(v: Info)
    requires WellFormed(v)
    ensures var p := PackInfo(v);
            && |p| == 216
            && Value(p[72..76]) == 32 && p[76..82] == v.mac
            && Value(p[108..112]) == 64 && p[112..116] == v.ip
            && Value(p[180..184]) == 128 && p[184..188] == v.mask
  {
    var e := Entries(v);
    SixAreValid(v);
    FieldsKept(v);
    PackedEntry(v, 2, e[2], 6);
    PackedEntry(v, 3, e[3], 4);
    PackedEntry(v, 5, e[5], 4);
  }

  lemma PackedFlag(v: Info, b3: Byte, b2: Byte, b1: Byte, b0: Byte)
    requires v.staticFlag == ((b3 * 256 + b2) * 256 + b1) * 256 + b0
    ensures var p := PackInfo(v);
            && |p| == 216
            && Value(p[36..40]) == 2 && p[40..44] == [b0, b1, b2, b3]
            && Value(p[144..148]) == 4 && p[148..152] == [0, 0, 0, 0]
  {
    var e := Entries(v);
    SixAreValid(v);
    PackedEntry(v, 1, e[1], 4);
    PackedEntry(v, 4, e[4], 4);
    FlagValue(v, b3, b2, b1, b0);
  }

  lemma FlagValue(v: Info, b3: Byte, b2: Byte, b1: Byte, b0: Byte)
    requires v.staticFlag == ((b3 * 256 + b2) * 256 + b1) * 256 + b0
    ensures Entries(v)[1].value[..4] == [b0, b1, b2, b3] && Entries(v)[4].value[..4] == [0, 0, 0, 0]
  {
    var swapped := Htonl(v.staticFlag);
    FlagBytes(v.staticFlag, b3, b2, b1, b0);
    FieldOfBytes(0, 0, 0, 0);
    FirstFour(Field(swapped, 4));
    FirstFour(Field(0, 4));
  }

  lemma FirstFour(field: seq<Byte>)
    requires |field| == 4
    ensures (field + Fixed([], 28))[..4] == field
  {
  }

  // ---- The reader ----------------------------------------------------------------------------

  // `field` is the 32-byte name array of a node, which strncpy leaves without a terminator when
  // the name fills it.
  datatype Iface = Iface(
    field: seq<Byte>,
    addr: Option<seq<Byte>>,
    ip: Option<seq<Byte>>,
    mask: Option<seq<Byte>>,
    status: nat)

  datatype Status = Status(field: seq<Byte>, status: nat)

  datatype Lists = Lists(ifaces: seq<Iface>, statuses: seq<Status>)

  // A C string starting at the given bytes: what comes before the first zero.
  function CString(bytes: seq<Byte>): seq<Byte> {
    if bytes == [] || bytes[0] == 0 then [] else [bytes[0]] + CString(bytes[1..])
  }

  // strncpy of a name field into another: up to the first zero, then zeros.
  function StrNCpy(value: seq<Byte>): (field: seq<Byte>)
    ensures |field| == NAMELEN
  {
    Fixed(CString(value), NAMELEN)
  }

  ghost predicate NulFree(name: seq<Byte>) {
    forall k :: 0 <= k < |name| ==> name[k] != 0
  }

  lemma {:induction false} CStringEnds(name: seq<Byte>, tail: seq<Byte>)
    requires NulFree(name)
    ensures CString(name + tail) == name + CString(tail)
  {
    if name == [] {
      assert name + tail == tail;
    } else {
      assert (name + tail)[1..] == name[1..] + tail;
      CStringEnds(name[1..], tail);
    }
  }

  lemma {:induction false} CStringNulFree(bytes: seq<Byte>)
    ensures NulFree(CString(bytes)) && CString(bytes) <= bytes
    ensures |CString(bytes)| < |bytes| ==> bytes[|CString(bytes)|] == 0
  {
    if bytes != [] && bytes[0] != 0 {
      CStringNulFree(bytes[1..]);
    }
  }

  predicate Terminated(field: seq<Byte>) {
    0 in field
  }

  // A string stays inside its array exactly when the array has a zero.
  lemma StringInField(field: seq<Byte>, tail: seq<Byte>)
    ensures CString(field + tail) == if Terminated(field) then CString(field) else field + CString(tail)
  {
    var name := CString(field);
    CStringNulFree(field);
    if Terminated(field) {
      assert |name| < |field|;
      assert field + tail == name + (field[|name|..] + tail);
      CStringEnds(name, field[|name|..] + tail);
      assert (field[|name|..] + tail)[0] == 0;
    } else {
      CStringEnds(field, tail);
    }
  }

  // What a node's array holds of a printed name.
  lemma CopiedName(name: seq<Byte>)
    ensures var field := StrNCpy(Fixed(name, NAMELEN));
            && (Terminated(field) && CString(field) == name <==> NulFree(name) && |name| < NAMELEN)
            && (!Terminated(field) <==> |name| >= NAMELEN && NulFree(name[..NAMELEN]))
            && (!Terminated(field) ==> field == name[..NAMELEN])
  {
    var sent := Fixed(name, NAMELEN);
    assert |name| < NAMELEN ==> sent[|name|] == 0;
    var short := CString(sent);
    CStringNulFree(sent);
    var field := StrNCpy(sent);
    if |short| < NAMELEN {
      assert field == short + Zeros(NAMELEN - |short|) && field[|short|] == 0;
      CStringEnds(short, Zeros(NAMELEN - |short|));
      if NulFree(name) && |name| < NAMELEN {
        assert sent == name + Zeros(NAMELEN - |name|);
        CStringEnds(name, Zeros(NAMELEN - |name|));
      }
      if |name| >= NAMELEN {
        assert sent[|short|] == 0 && name[|short|] == 0;
      }
    } else {
      assert short == sent && field == sent && NulFree(sent);
    }
  }

  function SetLast(ifaces: seq<Iface>, last: Iface): seq<Iface>
    requires ifaces != []
  {
    ifaces[..|ifaces| - 1] + [last]
  }

  // What one entry does; the setters assert that there is an interface to set.
  function Step(l: Lists, e: Entry): Option<Lists>
    requires |e.value| == 32
  {
    if e.key == HWINTERFACE then
      var field := StrNCpy(e.value);
      Some(Lists(l.ifaces + [Iface(field, None, None, None, 1)], l.statuses + [Status(field, 1)]))
    else if e.key in {HWMASK, HWETHIP, HWETHER} then
      if l.ifaces == [] then None
      else
        var last := l.ifaces[|l.ifaces| - 1];
        Some(l.(ifaces := SetLast(l.ifaces,
          if e.key == HWMASK then last.(mask := Some(e.value[..4]))
          else if e.key == HWETHIP then last.(ip := Some(e.value[..4]))
          else last.(addr := Some(e.value[..6])))))
    else Some(l)
  }

  // Entries one after the other, until one aborts.
  function Handle(l: Lists, entries: seq<Entry>): Option<Lists>
    requires forall k :: 0 <= k < |entries| ==> |entries[k].value| == 32
    decreases |entries|
  {
    if entries == [] then Some(l)
    else
      match Step(l, entries[0])
      case None => None
      case Some(next) => Handle(next, entries[1..])
  }

  lemma {:induction false} HandleConcat(l: Lists, a: seq<Entry>, b: seq<Entry>)
    requires AllValid(a) && AllValid(b)
    ensures Handle(l, a + b) == match Handle(l, a) case None => None case Some(m) => Handle(m, b)
    decreases |a|
  {
    if a == [] {
      assert a + b == b;
    } else if Step(l, a[0]).Some? {
      assert (a + b)[1..] == a[1..] + b;
      HandleConcat(Step(l, a[0]).value, a[1..], b);
    }
  }

  // What the reader rebuilds from one interface.
  function Rebuilt(v: Info): Iface {
    Iface(StrNCpy(Fixed(v.name, NAMELEN)), Some(v.mac), Some(v.ip), Some(v.mask), 1)
  }

  function WithInfo(l: Lists, v: Info): Lists {
    Lists(l.ifaces + [Rebuilt(v)], l.statuses + [Status(StrNCpy(Fixed(v.name, NAMELEN)), 1)])
  }

  function RebuiltAll(l: Lists, infos: seq<Info>): Lists
    decreases |infos|
  {
    if infos == [] then l else RebuiltAll(WithInfo(l, infos[0]), infos[1..])
  }

  lemma StepOnLast(l: Lists, ifaces: seq<Iface>, last: Iface, e: Entry)
    requires l.ifaces == ifaces + [last] && |e.value| == 32
    ensures e.key == HWMASK ==> Step(l, e) == Some(l.(ifaces := ifaces + [last.(mask := Some(e.value[..4]))]))
    ensures e.key == HWETHIP ==> Step(l, e) == Some(l.(ifaces := ifaces + [last.(ip := Some(e.value[..4]))]))
    ensures e.key == HWETHER ==> Step(l, e) == Some(l.(ifaces := ifaces + [last.(addr := Some(e.value[..6]))]))
    ensures e.key == HWSTATIC || e.key == HWSUBNET ==> Step(l, e) == Some(l)
  {
    assert l.ifaces[..|l.ifaces| - 1] == ifaces;
  }

  lemma FieldsKept(v: Info)
    requires WellFormed(v)
    ensures Fixed(v.mac, 32)[..6] == v.mac
    ensures (Fixed(v.ip, 4) + Fixed([], 28))[..4] == v.ip
    ensures (Fixed(v.mask, 4) + Fixed([], 28))[..4] == v.mask
  {
  }

  lemma SixAreValid(v: Info)
    ensures AllValid(Entries(v))
  {
    KeysFit();
  }

  // Five entries after a name fill in the interface the name added.
  lemma HandleFive(l: Lists, ifaces: seq<Iface>, blank: Iface, e: seq<Entry>)
    requires |e| == 5 && AllValid(e) && l.ifaces == ifaces + [blank]
    requires e[0].key == HWSTATIC && e[1].key == HWETHER && e[2].key == HWETHIP
    requires e[3].key == HWSUBNET && e[4].key == HWMASK
    ensures Handle(l, e) ==
            Some(l.(ifaces := ifaces + [
              blank.(addr := Some(e[1].value[..6]), ip := Some(e[2].value[..4]), mask := Some(e[4].value[..4]))]))
  {
    var with2 := blank.(addr := Some(e[1].value[..6]));
    var with3 := with2.(ip := Some(e[2].value[..4]));
    var l2, l3 := l.(ifaces := ifaces + [with2]), l.(ifaces := ifaces + [with3]);
    var l5 := l.(ifaces := ifaces + [with3.(mask := Some(e[4].value[..4]))]);
    StepOnLast(l, ifaces, blank, e[0]);
    StepOnLast(l, ifaces, blank, e[1]);
    StepOnLast(l2, ifaces, with2, e[2]);
    StepOnLast(l3, ifaces, with3, e[3]);
    StepOnLast(l3, ifaces, with3, e[4]);
    HandleNext(l5, e, 5, l5);
    HandleNext(l3, e, 4, l5);
    HandleNext(l3, e, 3, l3);
    HandleNext(l2, e, 2, l3);
    HandleNext(l, e, 1, l2);
    HandleNext(l, e, 0, l);
    assert e[0..] == e;
  }

  // One step of Handle, from entry k on.
  lemma HandleNext(l: Lists, e: seq<Entry>, k: nat, next: Lists)
    requires k <= |e| && AllValid(e) && (if k < |e| then Step(l, e[k]) == Some(next) else next == l)
    ensures Handle(l, e[k..]) == if k < |e| then Handle(next, e[k + 1..]) else Some(l)
  {
    if k < |e| {
      assert e[k..][1..] == e[k + 1..];
    }
  }

  lemma StepName(l: Lists, e: Entry)
    requires e.key == HWINTERFACE && |e.value| == 32
    ensures Step(l, e) == Some(Lists(l.ifaces + [Iface(StrNCpy(e.value), None, None, None, 1)],
                                     l.statuses + [Status(StrNCpy(e.value), 1)]))
  {
  }

  lemma HandleSix(l: Lists, e: seq<Entry>)
    requires |e| == 6 && AllValid(e) && e[0].key == HWINTERFACE
    requires e[1].key == HWSTATIC && e[2].key == HWETHER && e[3].key == HWETHIP
    requires e[4].key == HWSUBNET && e[5].key == HWMASK
    ensures var name := StrNCpy(e[0].value);
            var added := Iface(name, Some(e[2].value[..6]), Some(e[3].value[..4]), Some(e[5].value[..4]), 1);
            Handle(l, e) == Some(Lists(l.ifaces + [added], l.statuses + [Status(name, 1)]))
  {
    var name := StrNCpy(e[0].value);
    var blank := Iface(name, None, None, None, 1);
    var next := Lists(l.ifaces + [blank], l.statuses + [Status(name, 1)]);
    StepName(l, e[0]);
    HandleFive(next, l.ifaces, blank, e[1..]);
    HandleNext(l, e, 0, next);
    assert e[0..] == e;
  }

  // The six entries of one interface add that interface, whatever the lists held.
  lemma HandleInfo(l: Lists, v: Info)
    requires WellFormed(v)
    ensures AllValid(Entries(v))
    ensures Handle(l, Entries(v)) == Some(WithInfo(l, v))
  {
    SixAreValid(v);
    FieldsKept(v);
    HandleSix(l, Entries(v));
  }

  lemma {:induction false} HandleAll(l: Lists, infos: seq<Info>)
    requires forall v :: v in infos ==> WellFormed(v)
    ensures AllValid(AllEntries(infos))
    ensures Handle(l, AllEntries(infos)) == Some(RebuiltAll(l, infos))
    decreases |infos|
  {
    EntriesValid(infos);
    if infos != [] {
      HandleInfo(l, infos[0]);
      EntriesValid(infos[1..]);
      HandleConcat(l, Entries(infos[0]), AllEntries(infos[1..]));
      HandleAll(WithInfo(l, infos[0]), infos[1..]);
    }
  }

  // ---- The message ---------------------------------------------------------------------------

  // Entry i of a received message.
  function EntryAt(buf: seq<Byte>, i: nat): (e: Entry)
    requires HEADER + ENTRY * i + ENTRY <= |buf|
    ensures |e.value| == 32
  {
    var at := HEADER + ENTRY * i;
    Entry(Value(buf[at..at + 4]), buf[at + 4..at + ENTRY])
  }

  // How many entries the length field announces.
  function Count(buf: seq<Byte>): (n: nat)
    requires |buf| >= HEADER && |buf| == Value(buf[..4])
    ensures HEADER + ENTRY * n <= |buf|
  {
    (Value(buf[..4]) - HEADER) / ENTRY
  }

  function EntriesOf(buf: seq<Byte>, n: nat): (r: seq<Entry>)
    requires HEADER + ENTRY * n <= |buf|
    ensures |r| == n && forall k :: 0 <= k < n ==> |r[k].value| == 32 && r[k] == EntryAt(buf, k)
  {
    seq(n, k requires 0 <= k < n => EntryAt(buf, k))
  }

  lemma EntrySlices(header: seq<Byte>, body: seq<Byte>, at: nat, e: Entry)
    requires at + ENTRY <= |body| && |e.value| == 32 && body[at..at + ENTRY] == Spell(e)
    ensures var buf, start := header + body, |header| + at;
            buf[start..start + 4] == Field(e.key, 4) && buf[start + 4..start + ENTRY] == e.value
  {
    var buf, start := header + body, |header| + at;
    assert buf[start..start + ENTRY] == body[at..at + ENTRY];
    assert buf[start..start + 4] == buf[start..start + ENTRY][..4];
    assert buf[start + 4..start + ENTRY] == buf[start..start + ENTRY][4..];
  }

  lemma ReadBack(entries: seq<Entry>, header: seq<Byte>, i: nat)
    requires AllValid(entries) && i < |entries| && |header| == HEADER
    ensures HEADER + ENTRY * i + ENTRY <= |header + SpellAll(entries)|
    ensures EntryAt(header + SpellAll(entries), i) == entries[i]
  {
    SpelledAt(entries, i);
    EntrySlices(header, SpellAll(entries), ENTRY * i, entries[i]);
    FieldValue(entries[i].key, 4);
  }

  // The message as sent: the frame of a hardware-information message.
  function Sent(infos: seq<Info>): Option<seq<Byte>> {
    Framing.Pack(Wire(), Framing.Message(KIND, PackBody(infos)))
  }

  lemma SentFrame(infos: seq<Info>)
    requires Sent(infos).Some?
    ensures var buf := Sent(infos).value;
            && |buf| == Value(buf[..4]) == HEADER + 6 * ENTRY * |infos|
            && Count(buf) == 6 * |infos|
            && |buf[..HEADER]| == HEADER && buf == buf[..HEADER] + SpellAll(AllEntries(infos))
  {
    var m := Framing.Message(KIND, PackBody(infos));
    assert Framing.Pack(Wire(), m).Some?;
    Framing.PackedFrame(Wire(), m);
    BodyIsSpelled(infos);
    EntriesValid(infos);
    SpelledSize(AllEntries(infos));
  }

  // Reading a sent message sees exactly the entries that were printed.
  lemma EntriesReadBack(infos: seq<Info>)
    requires Sent(infos).Some?
    ensures var buf := Sent(infos).value;
            && |buf| == Value(buf[..4]) >= HEADER
            && EntriesOf(buf, Count(buf)) == AllEntries(infos)
  {
    SentFrame(infos);
    EntriesValid(infos);
    var buf := Sent(infos).value;
    forall k | 0 <= k < 6 * |infos|
      ensures EntryAt(buf, k) == AllEntries(infos)[k]
    {
      ReadBack(AllEntries(infos), buf[..HEADER], k);
    }
  }

  // Its header: the length of the whole message and the type.
  lemma SentHeader(infos: seq<Info>)
    requires Sent(infos).Some?
    ensures var buf := Sent(infos).value;
            Value(buf[..4]) == |buf| == 8 + 216 * |infos| && Value(buf[4..8]) == 16
  {
    SentFrame(infos);
    Framing.PackedLayout(Wire(), Framing.Message(KIND, PackBody(infos)));
  }

  // ---- Interface status ------------------------------------------------------------------------

  // A machine's byte order and what lies in memory behind the status word of each node.
  datatype Machine = Machine(host: Host, behind: nat -> seq<Byte>)

  // A status word as the machine stores it.
  function WordBytes(host: Host, x: nat): (r: seq<Byte>)
    ensures |r| == 4
  {
    var b0: Byte, b1: Byte, b2: Byte, b3: Byte :=
      x % 256, x / 0x100 % 256, x / 0x1_0000 % 256, x / 0x100_0000 % 256;
    if host.BigEndian? then [b3, b2, b1, b0] else [b0, b1, b2, b3]
  }

  // What a string that runs past the name array of node k reads there.
  function Overrun(m: Machine, k: nat, status: nat): seq<Byte> {
    CString(WordBytes(m.host, status) + m.behind(k))
  }

  // The string strcmp sees at node k.
  function NameAt(m: Machine, statuses: seq<Status>, k: nat): seq<Byte>
    requires k < |statuses|
  {
    CString(statuses[k].field + (WordBytes(m.host, statuses[k].status) + m.behind(k)))
  }

  // The first node, from `from` on, whose string is the name.
  function FirstNamed(m: Machine, statuses: seq<Status>, name: seq<Byte>, from: nat): (i: nat)
    requires from <= |statuses|
    ensures from <= i <= |statuses| && forall k :: from <= k < i ==> NameAt(m, statuses, k) != name
    ensures i < |statuses| ==> NameAt(m, statuses, i) == name
    decreases |statuses| - from
  {
    if from == |statuses| || NameAt(m, statuses, from) == name then from
    else FirstNamed(m, statuses, name, from + 1)
  }

  function StatusOf(m: Machine, statuses: seq<Status>, name: seq<Byte>): nat {
    var i := FirstNamed(m, statuses, name, 0);
    if i < |statuses| then statuses[i].status else 0
  }

  function Updated(m: Machine, statuses: seq<Status>, status: nat, name: seq<Byte>): (r: seq<Status>)
    ensures |r| == |statuses|
  {
    var i := FirstNamed(m, statuses, name, 0);
    if i < |statuses| then statuses[i := statuses[i].(status := status)] else statuses
  }

  // Whether writing a status leaves node i with the name it had.
  predicate KeepsName(m: Machine, statuses: seq<Status>, i: nat, status: nat)
    requires i < |statuses|
  {
    Terminated(statuses[i].field) || Overrun(m, i, status) == Overrun(m, i, statuses[i].status)
  }

  lemma NameKept(m: Machine, statuses: seq<Status>, i: nat, status: nat)
    requires i < |statuses|
    ensures NameAt(m, statuses[i := statuses[i].(status := status)], i) == NameAt(m, statuses, i)
            <==> KeepsName(m, statuses, i, status)
  {
    var field := statuses[i].field;
    StringInField(field, WordBytes(m.host, status) + m.behind(i));
    StringInField(field, WordBytes(m.host, statuses[i].status) + m.behind(i));
    var a, b := Overrun(m, i, status), Overrun(m, i, statuses[i].status);
    assert a != b ==> field + a != field + b by {
      assert (field + a)[|field|..] == a && (field + b)[|field|..] == b;
    }
  }

  // An update is seen by the next look-up of that name exactly when writing the status keeps the
  // node's name; then no other name's status changes.  An unknown name changes nothing.
  lemma UpdateThenObtain(m: Machine, statuses: seq<Status>, status: nat, name: seq<Byte>)
    ensures var i, after := FirstNamed(m, statuses, name, 0), Updated(m, statuses, status, name);
            if i == |statuses| then after == statuses
            else && (FirstNamed(m, after, name, 0) == i <==> KeepsName(m, statuses, i, status))
                 && (KeepsName(m, statuses, i, status) ==>
                       && StatusOf(m, after, name) == status
                       && forall other :: other != name ==> StatusOf(m, after, other) == StatusOf(m, statuses, other))
  {
    var i, after := FirstNamed(m, statuses, name, 0), Updated(m, statuses, status, name);
    if i < |statuses| {
      NameKept(m, statuses, i, status);
      assert forall k :: 0 <= k < |statuses| && k != i ==> NameAt(m, after, k) == NameAt(m, statuses, k);
      if KeepsName(m, statuses, i, status) {
        forall other
          ensures FirstNamed(m, after, other, 0) == FirstNamed(m, statuses, other, 0)
        {
          SameFirst(m, statuses, after, other, 0);
        }
      }
    }
  }

  lemma {:induction false} SameFirst(m: Machine, statuses: seq<Status>, after: seq<Status>, name: seq<Byte>, from: nat)
    requires |after| == |statuses| && from <= |statuses|
    requires forall k :: 0 <= k < |statuses| ==> NameAt(m, after, k) == NameAt(m, statuses, k)
    ensures FirstNamed(m, after, name, from) == FirstNamed(m, statuses, name, from)
    decreases |statuses| - from
  {
    if from < |statuses| {
      SameFirst(m, statuses, after, name, from + 1);
    }
  }

  // A printed name is the string at its node exactly when it has no zero byte and is shorter than
  // the array, or what the string runs into happens to be the rest of the name.
  lemma NameSurvives(m: Machine, statuses: seq<Status>, k: nat, name: seq<Byte>)
    requires k < |statuses| && statuses[k].field == StrNCpy(Fixed(name, NAMELEN))
    ensures NameAt(m, statuses, k) == name <==>
            NulFree(name) && (|name| < NAMELEN || Overrun(m, k, statuses[k].status) == name[NAMELEN..])
  {
    var field, tail := statuses[k].field, WordBytes(m.host, statuses[k].status) + m.behind(k);
    CopiedName(name);
    StringInField(field, tail);
    CStringNulFree(field + tail);
    if !Terminated(field) {
      assert name == name[..NAMELEN] + name[NAMELEN..];
      assert (field + CString(tail))[NAMELEN..] == CString(tail);
      CStringNulFree(tail);
    }
  }

  // On a little-endian machine an interface that is up can be found by its name exactly when the
  // name is shorter than 32 bytes: a longer string runs into the status word, whose first byte
  // is 1.
  lemma LongNamesAreLost(m: Machine, statuses: seq<Status>, k: nat, name: seq<Byte>)
    requires m.host.LittleEndian? && forall j :: 0 <= j < |name| ==> name[j] > 1
    requires k < |statuses| && statuses[k] == Status(StrNCpy(Fixed(name, NAMELEN)), 1)
    ensures NameAt(m, statuses, k) == name <==> |name| < 32
  {
    NameSurvives(m, statuses, k, name);
    assert Overrun(m, k, 1)[0] == 1;
  }

  // So a router whose only interface has a name of 32 bytes reads it as down.
  lemma LongNameReadsDown(m: Machine, name: seq<Byte>)
    requires m.host.LittleEndian? && name == seq(NAMELEN, _ => 0x61)
    ensures StatusOf(m, [Status(StrNCpy(Fixed(name, NAMELEN)), 1)], name) == 0
  {
    var statuses := [Status(StrNCpy(Fixed(name, NAMELEN)), 1)];
    LongNamesAreLost(m, statuses, 0, name);
  }

  // ---- The router's lists ------------------------------------------------------------------------

  class Router {
    const machine: Machine
    var lists: Lists

    constructor (machine: Machine)
      ensures this.machine == machine && lists == Lists([], [])
    {
      this.machine := machine;
      lists := Lists([], []);
    }

    // sr_add_interface followed by sr_add_interface_status, both at the end of their lists.
    method AddInterface(value: seq<Byte>)
      modifies this
      ensures lists.ifaces == old(lists).ifaces + [Iface(StrNCpy(value), None, None, None, 1)]
      ensures lists.statuses == old(lists).statuses + [Status(StrNCpy(value), 1)]
    {
      var field := StrNCpy(value);
      lists := Lists(lists.ifaces + [Iface(field, None, None, None, 1)], lists.statuses + [Status(field, 1)]);
    }

    // The walk to the last interface.
    method Last() returns (i: nat)
      requires lists.ifaces != []
      ensures i == |lists.ifaces| - 1
    {
      i := 0;
      while i + 1 < |lists.ifaces|
        invariant i < |lists.ifaces|
      {
        i := i + 1;
      }
    }

    // The setters of the last interface; not ok when there is none.
    method SetAddr(value: seq<Byte>) returns (ok: bool)
      requires |value| >= 6
      modifies this
      ensures ok <==> old(lists).ifaces != []
      ensures ok ==> lists == old(lists).(ifaces := SetLast(old(lists).ifaces,
                       old(lists).ifaces[|old(lists).ifaces| - 1].(addr := Some(value[..6]))))
    {
      if lists.ifaces == [] {
        return false;
      }
      var i := Last();
      var last := lists.ifaces[i];
      lists := lists.(ifaces := lists.ifaces[i := last.(addr := Some(value[..6]))]);
      assert lists.ifaces == SetLast(old(lists).ifaces, lists.ifaces[i]);
      ok := true;
    }

    method SetIp(value: seq<Byte>) returns (ok: bool)
      requires |value| >= 4
      modifies this
      ensures ok <==> old(lists).ifaces != []
      ensures ok ==> lists == old(lists).(ifaces := SetLast(old(lists).ifaces,
                       old(lists).ifaces[|old(lists).ifaces| - 1].(ip := Some(value[..4]))))
    {
      if lists.ifaces == [] {
        return false;
      }
      var i := Last();
      var last := lists.ifaces[i];
      lists := lists.(ifaces := lists.ifaces[i := last.(ip := Some(value[..4]))]);
      assert lists.ifaces == SetLast(old(lists).ifaces, lists.ifaces[i]);
      ok := true;
    }

    method SetMask(value: seq<Byte>) returns (ok: bool)
      requires |value| >= 4
      modifies this
      ensures ok <==> old(lists).ifaces != []
      ensures ok ==> lists == old(lists).(ifaces := SetLast(old(lists).ifaces,
                       old(lists).ifaces[|old(lists).ifaces| - 1].(mask := Some(value[..4]))))
    {
      if lists.ifaces == [] {
        return false;
      }
      var i := Last();
      var last := lists.ifaces[i];
      lists := lists.(ifaces := lists.ifaces[i := last.(mask := Some(value[..4]))]);
      assert lists.ifaces == SetLast(old(lists).ifaces, lists.ifaces[i]);
      ok := true;
    }

    // sr_handle_hwinfo; not ok when a setter's assertion fails.
    method HandleHwInfo(buf: seq<Byte>) returns (ok: bool, count: nat)
      requires |buf| >= HEADER && |buf| == Value(buf[..4])
      modifies this
      ensures match Handle(old(lists), EntriesOf(buf, Count(buf)))
              case None => !ok
              case Some(l) => ok && lists == l && count == Count(buf)
    {
      count := (Value(buf[..4]) - HEADER) / ENTRY;
      ghost var entries := EntriesOf(buf, count);
      var i := 0;
      while i < count
        invariant i <= count && Handle(lists, entries[i..]) == Handle(old(lists), entries)
      {
        ok := HandleEntry(EntryAt(buf, i));
        assert entries[i..][1..] == entries[i + 1..];
        if !ok {
          return;
        }
        i := i + 1;
      }
      ok := true;
    }

    // The switch.
    method HandleEntry(e: Entry) returns (ok: bool)
      requires |e.value| == 32
      modifies this
      ensures match Step(old(lists), e)
              case None => !ok
              case Some(l) => ok && lists == l
    {
      ok := true;
      if e.key == HWINTERFACE {
        AddInterface(e.value);
      } else if e.key == HWMASK {
        ok := SetMask(e.value);
      } else if e.key == HWETHIP {
        ok := SetIp(e.value);
      } else if e.key == HWETHER {
        ok := SetAddr(e.value);
      }
    }

    // sr_update_interface_status
    method UpdateStatus(status: nat, name: seq<Byte>)
      modifies this
      ensures lists == old(lists).(statuses := Updated(machine, old(lists).statuses, status, name))
    {
      var i := 0;
      while i < |lists.statuses|
        invariant i <= |lists.statuses| && lists == old(lists)
        invariant FirstNamed(machine, lists.statuses, name, 0) == FirstNamed(machine, lists.statuses, name, i)
      {
        if NameAt(machine, lists.statuses, i) == name {
          lists := lists.(statuses := lists.statuses[i := lists.statuses[i].(status := status)]);
          return;
        }
        i := i + 1;
      }
    }

    // sr_obtain_interface_status
    method ObtainStatus(name: seq<Byte>) returns (status: nat)
      ensures status == StatusOf(machine, lists.statuses, name)
    {
      var i := 0;
      while i < |lists.statuses|
        invariant i <= |lists.statuses|
        invariant FirstNamed(machine, lists.statuses, name, 0) == FirstNamed(machine, lists.statuses, name, i)
      {
        if NameAt(machine, lists.statuses, i) == name {
          return lists.statuses[i].status;
        }
        i := i + 1;
      }
      status := 0;
    }
  }

  // ---- Round trip --------------------------------------------------------------------------------

  // A name that fits its array with a terminator.
  ghost predicate FitsName(name: seq<Byte>) {
    NulFree(name) && |name| < NAMELEN
  }

  // The array holds the name as a string.
  predicate Holds(field: seq<Byte>, name: seq<Byte>) {
    Terminated(field) && CString(field) == name
  }

  // What is read for one printed interface; its name is held exactly when it fits.
  ghost predicate ReadFor(v: Info, f: Iface, s: Status) {
    && f.addr == Some(v.mac) && f.ip == Some(v.ip) && f.mask == Some(v.mask) && f.status == 1
    && s == Status(f.field, 1)
    && f.field == StrNCpy(Fixed(v.name, NAMELEN))
    && (Holds(f.field, v.name) <==> FitsName(v.name))
  }

  lemma {:induction false} RebuiltAllIs(l: Lists, infos: seq<Info>, k: nat)
    requires k < |infos|
    ensures var after := RebuiltAll(l, infos);
            && |after.ifaces| == |l.ifaces| + |infos| && |after.statuses| == |l.statuses| + |infos|
            && l.ifaces <= after.ifaces && l.statuses <= after.statuses
            && ReadFor(infos[k], after.ifaces[|l.ifaces| + k], after.statuses[|l.statuses| + k])
    decreases |infos|
  {
    var next, rest := WithInfo(l, infos[0]), infos[1..];
    if rest != [] {
      RebuiltAllIs(next, rest, if k == 0 then 0 else k - 1);
    }
    var after := RebuiltAll(next, rest);
    if k == 0 {
      CopiedName(infos[0].name);
      assert after.ifaces[|l.ifaces|] == next.ifaces[|l.ifaces|] == Rebuilt(infos[0]);
      assert after.statuses[|l.statuses|] == next.statuses[|l.statuses|];
    } else {
      assert rest[k - 1] == infos[k];
      assert |next.ifaces| + (k - 1) == |l.ifaces| + k && |next.statuses| + (k - 1) == |l.statuses| + k;
    }
  }

  // When every node is up, so is every interface whose name fits.
  lemma FoundUp(m: Machine, statuses: seq<Status>, k: nat, name: seq<Byte>)
    requires k < |statuses| && forall j :: 0 <= j < |statuses| ==> statuses[j].status == 1
    requires statuses[k].field == StrNCpy(Fixed(name, NAMELEN)) && FitsName(name)
    ensures StatusOf(m, statuses, name) == 1
  {
    NameSurvives(m, statuses, k, name);
    assert FirstNamed(m, statuses, name, 0) <= k;
  }

  // Make a list of interfaces, print it in one language and read it in the other: unless a
  // constructor refuses one, the same list comes out, in order, every interface up; a name is held
  // exactly when it has no zero byte and is shorter than 32 bytes, and then its interface is found
  // to be up.
  method PrintAndRead(given: seq<Given>, machine: Machine) returns (made: bool, sent: bool, r: Router, ok: bool)
    ensures made <==> forall g :: g in given ==> RightLengths(g)
    ensures made ==> (sent <==> HEADER + 6 * ENTRY * |given| < 0x1_0000_0000)
    ensures made && sent ==> ok && r.machine == machine && |r.lists.ifaces| == |r.lists.statuses| == |given|
    ensures made && sent ==> forall k: nat :: k < |given| ==>
              && ReadFor(InfoOf(given[k]), r.lists.ifaces[k], r.lists.statuses[k])
              && (FitsName(given[k].name) ==> StatusOf(machine, r.lists.statuses, given[k].name) == 1)
  {
    r := new Router(machine);
    var infos := MakeAll(given);
    made, sent, ok := infos.Some?, false, false;
    if made {
      forall v | v in infos.value
        ensures WellFormed(v)
      {
        var k :| 0 <= k < |infos.value| && infos.value[k] == v;
        assert given[k] in given;
      }
      sent, ok := PrintTo(r, infos.value);
    }
  }

  method PrintTo(r: Router, infos: seq<Info>) returns (sent: bool, ok: bool)
    requires r.lists == Lists([], []) && forall v :: v in infos ==> WellFormed(v)
    modifies r
    ensures sent <==> HEADER + 6 * ENTRY * |infos| < 0x1_0000_0000
    ensures sent ==> ok && |r.lists.ifaces| == |r.lists.statuses| == |infos|
    ensures sent ==> forall k: nat :: k < |infos| ==>
              && ReadFor(infos[k], r.lists.ifaces[k], r.lists.statuses[k])
              && (FitsName(infos[k].name) ==> StatusOf(r.machine, r.lists.statuses, infos[k].name) == 1)
  {
    BodySize(infos);
    var message := Sent(infos);
    sent, ok := message.Some?, false;
    if sent {
      EntriesReadBack(infos);
      HandleAll(Lists([], []), infos);
      var count;
      ok, count := r.HandleHwInfo(message.value);
      ReadAll(r.machine, r.lists, infos);
    }
  }

  lemma BodySize(infos: seq<Info>)
    ensures |PackBody(infos)| == 6 * ENTRY * |infos|
    ensures Sent(infos).Some? <==> HEADER + 6 * ENTRY * |infos| < 0x1_0000_0000
  {
    KeysFit();
    BodyIsSpelled(infos);
    EntriesValid(infos);
    SpelledSize(AllEntries(infos));
  }

  lemma {:induction false} ReadAll(m: Machine, l: Lists, infos: seq<Info>)
    requires l == RebuiltAll(Lists([], []), infos)
    ensures |l.ifaces| == |l.statuses| == |infos|
    ensures forall k: nat :: k < |infos| ==>
              && ReadFor(infos[k], l.ifaces[k], l.statuses[k])
              && (FitsName(infos[k].name) ==> StatusOf(m, l.statuses, infos[k].name) == 1)
  {
    if infos != [] {
      RebuiltAllIs(Lists([], []), infos, 0);
      forall k: nat | k < |infos|
        ensures ReadFor(infos[k], l.ifaces[k], l.statuses[k])
      {
        RebuiltAllIs(Lists([], []), infos, k);
      }
      forall k: nat | k < |infos| && FitsName(infos[k].name)
        ensures StatusOf(m, l.statuses, infos[k].name) == 1
      {
        FoundUp(m, l.statuses, k, infos[k].name);
      }
    }
  }
}
