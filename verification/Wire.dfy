/** Byte strings, their concatenation, and big-endian 16-bit numbers in them. */
module Wire {
  import opened Bits
  import opened Seq32

  type Bytes = seq<byte>

  function Concat(parts: seq<Bytes>): Bytes {
    if parts == [] then [] else parts[0] + Concat(parts[1..])
  }

  lemma {:induction false} ConcatAppend(parts: seq<Bytes>, part: Bytes)
    ensures Concat(parts + [part]) == Concat(parts) + part
  {
    if parts != [] {
      assert (parts + [part])[1..] == parts[1..] + [part];
      ConcatAppend(parts[1..], part);
    }
  }

  /** The low 16 bits of a number. */
  function U16Bytes(n: int): Bytes {
    [n / 256 % 256, n % 256]
  }

  function U16At(bytes: Bytes, i: nat): u16
    requires i + 1 < |bytes|
  {
    var high: int := bytes[i];
    high * 256 + bytes[i + 1]
  }

  lemma U16Read(v: u16)
    ensures U16At(U16Bytes(v), 0) == v
  {
  }

  lemma U16Width(n: int)
    ensures |U16Bytes(n)| == 2
  {
  }

  /** It is the number the two bytes make up. */
  lemma U16IsBe(bytes: Bytes, i: nat)
    requires i + 1 < |bytes|
    ensures U16At(bytes, i) == BeInt(bytes[i..i + 2])
  {
    var two := bytes[i..i + 2];
    assert two[..1] == [bytes[i]] && [bytes[i]][..0] == [];
    assert BeInt([bytes[i]]) == bytes[i];
  }
}
