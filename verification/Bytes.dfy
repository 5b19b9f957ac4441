// Unsigned big-endian fields, network byte order.
module Bytes {
  type Byte = b: int | 0 <= b < 256

  // Byte order of the machine.
  datatype Host = LittleEndian | BigEndian

  function Pow256(k: nat): (p: nat)
    ensures p > 0
  {
    if k == 0 then 1 else 256 * Pow256(k - 1)
  }

  // The value of the first k bytes.
  function ValueTo(field: seq<Byte>, k: nat): nat
    requires k <= |field|
  {
    if k == 0 then 0 else ValueTo(field, k - 1) * 256 + field[k - 1]
  }

  function Value(field: seq<Byte>): nat {
    ValueTo(field, |field|)
  }

  function Field(n: nat, k: nat): (field: seq<Byte>)
    ensures |field| == k
  {
    if k == 0 then [] else Field(n / 256, k - 1) + [n % 256]
  }

  lemma {:induction false} SamePrefix(a: seq<Byte>, b: seq<Byte>, k: nat)
    requires k <= |a| && k <= |b| && a[..k] == b[..k]
    ensures ValueTo(a, k) == ValueTo(b, k)
  {
    if k > 0 {
      assert a[..k][..k - 1] == b[..k][..k - 1] && a[..k][k - 1] == b[..k][k - 1];
      SamePrefix(a, b, k - 1);
    }
  }

  lemma ValueSnoc(field: seq<Byte>, last: Byte)
    ensures Value(field + [last]) == Value(field) * 256 + last
  {
    SamePrefix(field + [last], field, |field|);
  }

  lemma {:induction false} FieldValue(n: nat, k: nat)
    requires n < Pow256(k)
    ensures Value(Field(n, k)) == n
  {
    if k > 0 {
      FieldValue(n / 256, k - 1);
      ValueSnoc(Field(n / 256, k - 1), n % 256);
    }
  }

  lemma {:induction false} ValueField(field: seq<Byte>)
    ensures Value(field) < Pow256(|field|) && Field(Value(field), |field|) == field
  {
    if field != [] {
      var init, last := field[..|field| - 1], field[|field| - 1];
      ValueField(init);
      ValueSnoc(init, last);
      assert field == init + [last];
    }
  }

  function Zeros(k: nat): (z: seq<Byte>)
    ensures |z| == k && forall i :: 0 <= i < k ==> z[i] == 0
  {
    seq(k, _ => 0)
  }

  function Concat(pieces: seq<seq<Byte>>): seq<Byte> {
    if pieces == [] then [] else Concat(pieces[..|pieces| - 1]) + pieces[|pieces| - 1]
  }
}
