/**
 * The watermark codec: an additive mark in the flattened HL sub-band of one image channel.
 *
 * Embedding takes the channel's one-level wavelet decomposition, flattens its HL sub-band
 * into a vector of N coefficients, keeps an untouched copy of that vector as the key, and
 * adds `alpha` to coefficient `i + Offset` for every payload bit `i` that is '1' and fits.
 * Extraction decomposes the suspect channel the same way and reads bit `i` as '1' exactly
 * when coefficient `i + Offset` exceeds the key's by more than half of alpha.
 *
 * The wavelet transform itself is not modelled: `hl` stands for "decompose and flatten the
 * HL sub-band" and `rebuild` for "reshape a modified HL vector and invert the transform with
 * the channel's own LL, LH and HH sub-bands".
 */
module Core {
  import opened Wrappers
  import opened Utils

  /** Payload bit i lives in coefficient i + Offset. */
  const Offset: nat := 1000

  /** One channel of an image: rows of samples. */
  type Channel = seq<seq<real>>

  /** A three-channel (height x width x 3) array or a two-dimensional grey one. */
  datatype Image = Rgb(red: Channel, green: Channel, blue: Channel) | Gray(channel: Channel)

  /** The channel that carries the watermark: index 2 of a colour array, a grey array whole. */
  function Target(img: Image): Channel {
    match img
    case Rgb(_, _, b) => b
    case Gray(c) => c
  }

  /** How many bits of a `length`-bit payload fit after the offset in n coefficients. */
  function Capacity(n: nat, length: nat): (m: nat)
    ensures m <= length
    ensures m == 0 || Offset + m <= n
    ensures m == length || Offset + m >= n
  {
    if n <= Offset then 0 else Min(length, n - Offset)
  }

  /** Coefficient j receives +alpha: it is the slot of a payload bit that is '1'. */
  predicate Carries(j: int, bits: string) {
    Offset <= j < Offset + |bits| && bits[j - Offset] == '1'
  }

  /** The coefficient vector after embedding `bits` into v. */
  function Embedded(v: seq<real>, bits: string, alpha: real): seq<real> {
    seq(|v|, j requires 0 <= j < |v| => if Carries(j, bits) then v[j] + alpha else v[j])
  }

  /**
   * Embedding keeps the length, raises exactly the slots of the '1' bits that fit by alpha
   * and leaves every other slot alone: those below the offset, those of '0' bits and those
   * past the payload. Bits beyond the vector's end are dropped without an error.
   */
  lemma EmbeddedSlots(v: seq<real>, bits: string, alpha: real)
    ensures |Embedded(v, bits, alpha)| == |v|
    ensures forall j :: 0 <= j < |v| && j < Offset ==> Embedded(v, bits, alpha)[j] == v[j]
    ensures forall i :: 0 <= i < |bits| && Offset + i < |v| ==>
      Embedded(v, bits, alpha)[Offset + i] == if bits[i] == '1' then v[Offset + i] + alpha else v[Offset + i]
    ensures forall j :: Offset + |bits| <= j < |v| ==> Embedded(v, bits, alpha)[j] == v[j]
    ensures Embedded(v, bits, alpha) == Embedded(v, bits[..Capacity(|v|, |bits|)], alpha)
    ensures |v| <= Offset ==> Embedded(v, bits, alpha) == v
  {
    var m := Capacity(|v|, |bits|);
    forall j | 0 <= j < |v| ensures Carries(j, bits) == Carries(j, bits[..m]) {
      if Offset <= j < Offset + m {
        assert bits[..m][j - Offset] == bits[j - Offset];
      }
    }
  }

  /** The embedding loop of embed_channel, on the flattened HL vector in place. */
  method EmbedVector(flat: array<real>, bits: string, alpha: real)
    modifies flat
    ensures flat[..] == Embedded(old(flat[..]), bits, alpha)
  {
    var i := 0;
    while i < |bits|
      invariant 0 <= i <= |bits|
      invariant forall j :: 0 <= j < flat.Length ==>
        flat[j] == if Carries(j, bits[..i]) then old(flat[j]) + alpha else old(flat[j])
    {
      if i + Offset >= flat.Length {
        break;
      }
      if bits[i] == '1' {
        flat[i + Offset] := flat[i + Offset] + alpha;
      }
      i := i + 1;
      assert forall j :: 0 <= j < flat.Length ==>
        (Carries(j, bits[..i]) <==> Carries(j, bits[..i - 1]) || (j == i - 1 + Offset && bits[i - 1] == '1'));
    }
    assert forall j :: 0 <= j < flat.Length ==> (Carries(j, bits[..i]) <==> Carries(j, bits));
  }

  /**
   * embed_channel: the key is the HL vector as it was before any change; the watermarked
   * channel is rebuilt from the embedded vector.
   */
  method EmbedChannel(channel: Channel, bits: string, alpha: real,
                      hl: Channel -> seq<real>, rebuild: (Channel, seq<real>) -> Channel)
    returns (watermarked: Channel, key: seq<real>)
    ensures key == hl(channel)
    ensures watermarked == rebuild(channel, Embedded(key, bits, alpha))
  {
    var v := hl(channel);
    var flat := new real[|v|](j requires 0 <= j < |v| => v[j]);
    key := flat[..];
    assert key == v;
    EmbedVector(flat, bits, alpha);
    watermarked := rebuild(channel, flat[..]);
  }

  /** The bit extract_channel reads at payload position i. */
  function ReadBit(flat: seq<real>, key: seq<real>, alpha: real, i: nat): char
    requires Offset + i < |flat| && Offset + i < |key|
  {
    if flat[Offset + i] - key[Offset + i] > alpha * 0.5 then '1' else '0'
  }

  /**
   * What extract_channel returns: None when the key is too short for a coefficient it has
   * to read (Python raises IndexError there), otherwise one bit per payload slot that fits.
   */
  function Extracted(flat: seq<real>, key: seq<real>, alpha: real, length: nat): Option<string> {
    var m := Capacity(|flat|, length);
    if m > 0 && |key| < Offset + m then None
    else Some(seq(m, i requires 0 <= i < m => ReadBit(flat, key, alpha, i)))
  }

  /**
   * extract_channel: reads min(length, N - Offset) bits (none when N <= Offset) and fails only
   * when the key is shorter than a coefficient it reads; bit i is '1' exactly when the
   * coefficient exceeds the key's by more than alpha / 2.
   */
  method ExtractChannel(channel: Channel, key: seq<real>, alpha: real, length: nat, hl: Channel -> seq<real>)
    returns (r: Option<string>)
    ensures r == Extracted(hl(channel), key, alpha, length)
    ensures r.None? <==> Capacity(|hl(channel)|, length) > 0 && |key| < Offset + Capacity(|hl(channel)|, length)
    ensures r.Some? ==> |r.value| == Capacity(|hl(channel)|, length) && IsBinary(r.value)
    ensures r.Some? ==> forall i :: 0 <= i < |r.value| ==>
      (r.value[i] == '1' <==> hl(channel)[Offset + i] - key[Offset + i] > alpha * 0.5)
  {
    var flat := hl(channel);
    ghost var m := Capacity(|flat|, length);
    var threshold := alpha * 0.5;
    var bits := "";
    var i := 0;
    while i < length
      invariant 0 <= i <= m
      invariant i == 0 || Offset + i <= |key|
      invariant |bits| == i
      invariant forall k :: 0 <= k < i ==> bits[k] == ReadBit(flat, key, alpha, k)
    {
      if i + Offset >= |flat| {
        break;
      }
      if i + Offset >= |key| {
        return None;
      }
      var diff := flat[i + Offset] - key[i + Offset];
      if diff > threshold {
        bits := bits + "1";
      } else {
        bits := bits + "0";
      }
      i := i + 1;
    }
    r := Some(bits);
    assert bits == seq(m, k requires 0 <= k < m => ReadBit(flat, key, alpha, k));
  }

  /**
   * embed_watermark: the payload is text_to_binary of the text. A colour image keeps its first
   * two channels and has the third watermarked; a grey image is watermarked whole. The key is
   * the target channel's HL vector before embedding.
   */
  method EmbedWatermark(img: Image, text: string, alpha: real,
                        hl: Channel -> seq<real>, rebuild: (Channel, seq<real>) -> Channel)
    returns (out: Image, key: seq<real>)
    ensures out.Rgb? <==> img.Rgb?
    ensures img.Rgb? ==> out.red == img.red && out.green == img.green
    ensures key == hl(Target(img))
    ensures Target(out) == rebuild(Target(img), Embedded(key, TextToBinary(text), alpha))
  {
    var payload := TextToBinary(text);
    match img
    case Rgb(r, g, b) =>
      var marked;
      marked, key := EmbedChannel(b, payload, alpha, hl, rebuild);
      out := Rgb(r, g, marked);
    case Gray(c) =>
      var marked;
      marked, key := EmbedChannel(c, payload, alpha, hl, rebuild);
      out := Gray(marked);
  }

  /** extract_watermark: reads the third channel of a colour image, a grey image whole. */
  method ExtractWatermark(img: Image, key: seq<real>, alpha: real, length: nat, hl: Channel -> seq<real>)
    returns (r: Option<string>)
    ensures r == Extracted(hl(Target(img)), key, alpha, length)
  {
    var target := if img.Rgb? then img.blue else img.channel;
    r := ExtractChannel(target, key, alpha, length, hl);
  }

  /**
   * Extracting with the untouched vector as the key, the payload length as the length and a
   * strength below twice the embedding strength recovers the part of the payload that fit.
   */
  lemma EmbedExtractRoundTrip(v: seq<real>, bits: string, alphaEmbed: real, alphaExtract: real)
    requires IsBinary(bits)
    requires alphaEmbed > 0.0 && 0.0 <= alphaExtract < 2.0 * alphaEmbed
    ensures Extracted(Embedded(v, bits, alphaEmbed), v, alphaExtract, |bits|) == Some(bits[..Capacity(|v|, |bits|)])
  {
    var m := Capacity(|v|, |bits|);
    var w := Embedded(v, bits, alphaEmbed);
    var r := Extracted(w, v, alphaExtract, |bits|);
    assert r.Some?;
    forall i | 0 <= i < m ensures r.value[i] == bits[i] {
      assert Carries(Offset + i, bits) <==> bits[i] == '1';
      assert w[Offset + i] - v[Offset + i] == if bits[i] == '1' then alphaEmbed else 0.0;
    }
    assert r.value == bits[..m];
  }

  /**
   * A text of single-byte characters survives embedding and extraction at one strength
   * exactly when all of its bits fit after the offset; otherwise the decoded text is shorter.
   */
  lemma TextWatermarkRoundTrip(v: seq<real>, text: string, alpha: real)
    requires AllBytes(text) && text != []
    requires alpha > 0.0
    ensures Extracted(Embedded(v, TextToBinary(text), alpha), v, alpha, 8 * |text|).Some?
    ensures Decoded(Extracted(Embedded(v, TextToBinary(text), alpha), v, alpha, 8 * |text|).value) == text
        <==> Offset + 8 * |text| <= |v|
  {
    var bits := TextToBinary(text);
    TextToBinaryLength(text);
    EmbedExtractRoundTrip(v, bits, alpha, alpha);
    var m := Capacity(|v|, |bits|);
    assert m == |bits| <==> Offset + 8 * |text| <= |v|;
    DecodedPayloadPrefix(text, m);
  }

  /** Decoding a prefix of a text's bits gives the text back exactly when the prefix is whole. */
  lemma DecodedPayloadPrefix(text: string, m: nat)
    requires AllBytes(text)
    requires m <= |TextToBinary(text)|
    ensures Decoded(TextToBinary(text)[..m]) == text <==> m == |TextToBinary(text)|
  {
    var bits := TextToBinary(text);
    TextToBinaryLength(text);
    if m == |bits| {
      assert bits[..m] == bits;
      TextRoundTrip(text);
    } else {
      var got := bits[..m];
      assert IsBinary(got);
      DecodedShape(got);
    }
  }
}
