/**
 * Recognising an embedded PNG stream by the 8-byte signature of section 5.2
 * of the PNG specification (ISO/IEC 15948).
 */
module PngSniff {
  import opened ByteCodec

  const PngSignature: seq<byte> := [137, 80, 78, 71, 13, 10, 26, 10]

  /** memcmp-style comparison: bytes i.. of `sig` agree with the same positions of `data`. */
  predicate MatchesFrom(data: seq<byte>, sig: seq<byte>, i: nat)
    requires i <= |sig| <= |data|
    decreases |sig| - i
  {
    i == |sig| || (data[i] == sig[i] && MatchesFrom(data, sig, i + 1))
  }

  lemma {:induction false} MatchesFromIff(data: seq<byte>, sig: seq<byte>, i: nat)
    requires i <= |sig| <= |data|
    ensures MatchesFrom(data, sig, i) <==> data[i..|sig|] == sig[i..]
    decreases |sig| - i
  {
    if i < |sig| {
      MatchesFromIff(data, sig, i + 1);
      assert data[i..|sig|] == [data[i]] + data[i + 1..|sig|];
      assert sig[i..] == [sig[i]] + sig[i + 1..];
    }
  }

  /** IsPNG: the buffer holds at least 8 bytes and they are exactly the PNG signature. */
  function IsPng(data: seq<byte>): (r: bool)
    ensures r <==> |data| >= |PngSignature| && data[..|PngSignature|] == PngSignature
  {
    if |data| < |PngSignature| then false
    else
      MatchesFromIff(data, PngSignature, 0);
      MatchesFrom(data, PngSignature, 0)
  }

  /** A stream that starts with the signature is sniffed as PNG, whatever follows it. */
  lemma SignaturePrefixIsPng(rest: seq<byte>)
    ensures IsPng(PngSignature + rest)
  {
    assert (PngSignature + rest)[..|PngSignature|] == PngSignature;
  }
}
