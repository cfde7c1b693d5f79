/** Putting byte arrays together, as src/concat-kdf.js, src/a256cbc-hs512.js and src/ecdh-1pu.js each do. */
module Bytes {
  import opened JsNumber

  type bytes = seq<byte>

  /** The parts one after the other. */
  function Concat(parts: seq<bytes>): bytes {
    if parts == [] then [] else parts[0] + Concat(parts[1..])
  }

  function TotalLength(parts: seq<bytes>): (n: nat)
    ensures n == |Concat(parts)|
  {
    if parts == [] then 0 else |parts[0]| + TotalLength(parts[1..])
  }

  lemma {:induction false} ConcatAppend(parts: seq<bytes>, last: bytes)
    ensures Concat(parts + [last]) == Concat(parts) + last
  {
    if parts == [] {
      assert Concat([last]) == last + Concat([]);
      assert [] + [last] == [last];
    } else {
      ConcatAppend(parts[1..], last);
      assert (parts + [last])[1..] == parts[1..] + [last];
    }
  }

  lemma {:induction false} PrefixLength(parts: seq<bytes>, i: nat)
    requires i <= |parts|
    ensures Concat(parts[..i]) <= Concat(parts)
  {
    if i == 0 {
      assert parts[..0] == [];
    } else {
      PrefixLength(parts[1..], i - 1);
      assert parts[..i][1..] == parts[1..][..i - 1];
    }
  }

  /** `out.set(p, off)`. */
  method SetAt(out: array<byte>, p: bytes, off: nat)
    requires off + |p| <= out.Length
    modifies out
    ensures out[off..off + |p|] == p
    ensures out[..off] == old(out[..off]) && out[off + |p|..] == old(out[off + |p|..])
  {
    var i := 0;
    while i < |p|
      invariant i <= |p| && out[off..off + i] == p[..i]
      invariant out[..off] == old(out[..off]) && out[off + |p|..] == old(out[off + |p|..])
    {
      out[off + i] := p[i];
      assert out[off..off + i + 1] == out[off..off + i] + [p[i]];
      i := i + 1;
    }
  }

  method Copy(b: bytes) returns (out: array<byte>)
    ensures fresh(out) && out[..] == b
  {
    out := new byte[|b|](i requires 0 <= i < |b| => b[i]);
  }

  /** `buffer.fill(0)`. */
  method Wipe(a: array<byte>)
    modifies a
    ensures IsWiped(a)
  {
    var i := 0;
    while i < a.Length
      invariant i <= a.Length && forall j :: 0 <= j < i ==> a[j] == 0
    {
      a[i] := 0;
      i := i + 1;
    }
  }

  ghost predicate IsWiped(a: array<byte>)
    reads a
  {
    forall j :: 0 <= j < a.Length ==> a[j] == 0
  }

  method Concatenate(parts: seq<bytes>) returns (out: array<byte>)
    ensures fresh(out) && out[..] == Concat(parts)
  {
    var total := 0;
    var i := 0;
    assert parts[..|parts|] == parts;
    while i < |parts|
      invariant i <= |parts| && total == |Concat(parts[..i])|
    {
      assert parts[..i + 1] == parts[..i] + [parts[i]];
      ConcatAppend(parts[..i], parts[i]);
      total := total + |parts[i]|;
      i := i + 1;
    }
    out := new byte[total](_ => 0);
    var off := 0;
    i := 0;
    while i < |parts|
      invariant i <= |parts| && off == |Concat(parts[..i])| <= total && out[..off] == Concat(parts[..i])
    {
      assert parts[..i + 1] == parts[..i] + [parts[i]];
      ConcatAppend(parts[..i], parts[i]);
      PrefixLength(parts, i + 1);
      SetAt(out, parts[i], off);
      assert out[..off + |parts[i]|] == out[..off] + out[off..off + |parts[i]|];
      off := off + |parts[i]|;
      i := i + 1;
    }
    assert out[..off] == out[..];
  }
}
