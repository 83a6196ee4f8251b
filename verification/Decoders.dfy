/** What the hook engine needs of a length decoder, and that hde64 provides it. */
module Decoders {
  import opened Bytes
  import opened Table64
  import opened Hde64
  import DecoderLaws

  // A decoder reports the instruction that starts at an address.
  type Decoder = (seq<byte>, nat) -> Hde

  predicate CleanAt(d: Decoder, mem: seq<byte>, a: nat) {
    F_ERROR !in d(mem, a).flags
  }

  // An instruction decoded without error spans 1 to 15 bytes, and those bytes alone decide what it is.
  ghost predicate Sound(d: Decoder) {
    && (forall m, a :: CleanAt(d, m, a) ==> 1 <= d(m, a).len <= 15)
    && (forall m, a, m', b {:trigger Agree(m, a, m', b, d(m, a).len)} ::
          CleanAt(d, m, a) && Agree(m, a, m', b, d(m, a).len) ==> d(m', b) == d(m, a))
  }

  function HdeDecoder(t: HdeTable): Decoder {
    (mem: seq<byte>, a: nat) => Decode(t, mem, a)
  }

  lemma HdeCleanLength(t: HdeTable, m: seq<byte>, a: nat)
    requires CleanAt(HdeDecoder(t), m, a)
    ensures 1 <= HdeDecoder(t)(m, a).len <= 15
  {
    DecoderLaws.CleanLength(t, m, a);
  }

  lemma HdeSelfDelimiting(t: HdeTable, m: seq<byte>, a: nat, m': seq<byte>, b: nat)
    requires CleanAt(HdeDecoder(t), m, a) && Agree(m, a, m', b, HdeDecoder(t)(m, a).len)
    ensures HdeDecoder(t)(m', b) == HdeDecoder(t)(m, a)
  {
    DecoderLaws.CleanLength(t, m, a);
    DecoderLaws.SelfDelimiting(t, m, a, m', b);
  }

  lemma HdeIsSound(t: HdeTable)
    ensures Sound(HdeDecoder(t))
  {
    var d := HdeDecoder(t);
    forall m, a | CleanAt(d, m, a) ensures 1 <= d(m, a).len <= 15 {
      HdeCleanLength(t, m, a);
    }
    forall m, a, m', b | CleanAt(d, m, a) && Agree(m, a, m', b, d(m, a).len) ensures d(m', b) == d(m, a) {
      HdeSelfDelimiting(t, m, a, m', b);
    }
  }
}
