/**
 The first byte of an LZMA header packs three small numbers.
 */
module LzmaProperties {
  import opened Bytes
  import opened LzmaSyntax

  datatype Parsed = BadProperties | Parsed(p: Properties)

  function Packed(p: Properties): nat {
    (p.pb * 5 + p.lp) * 9 + p.lc
  }

  /** Only one set of valid properties packs to a number, and every number below 225 is packed from one. */
  lemma PackedOnce(p: Properties, q: Properties)
    requires ValidProperties(p) && ValidProperties(q) && Packed(p) == Packed(q)
    ensures p == q
  {
    var a, b := p.pb * 5 + p.lp, q.pb * 5 + q.lp;
    assert a == Packed(p) / 9 == b;
    assert p.pb == a / 5 == q.pb;
  }

  /** `LzmaDecodeProperties`: unpacks by repeated subtraction. */
  method LzmaDecodeProperties(data: seq<byte>) returns (r: Parsed)
    ensures r == BadProperties <==> |data| < 5 || data[0] >= 225
    ensures r.Parsed? ==> ValidProperties(r.p) && Packed(r.p) == data[0]
  {
    if |data| < 5 {
      return BadProperties;
    }
    var prop0: nat := data[0];
    if prop0 >= 9 * 5 * 5 {
      return BadProperties;
    }
    var pb, lp := 0, 0;
    while prop0 >= 9 * 5
      invariant prop0 + 45 * pb == data[0] < 225
    {
      pb := pb + 1;
      prop0 := prop0 - 9 * 5;
    }
    while prop0 >= 9
      invariant prop0 + 9 * lp + 45 * pb == data[0] && prop0 + 9 * lp < 45
    {
      lp := lp + 1;
      prop0 := prop0 - 9;
    }
    return Parsed(Properties(prop0, lp, pb));
  }
}
