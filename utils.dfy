/**
 * Text <-> bit-string codec and the even-dimension trim applied when an image is loaded.
 *
 * Text is encoded one character at a time as Python's `format(ord(c), '08b')`: the
 * binary digits of the code point, most significant first, zero-padded on the left to at
 * least eight digits. Decoding cuts the bit string into 8-character chunks and turns each
 * full chunk of binary digits back into one character; a trailing short chunk and a chunk
 * that does not parse contribute nothing.
 */
module Utils {

  function Min(a: int, b: int): int { if a <= b then a else b }

  /** A string made only of the digits '0' and '1'. */
  predicate IsBinary(s: string) {
    forall k :: 0 <= k < |s| ==> s[k] == '0' || s[k] == '1'
  }

  /** Every character is a single byte (code point below 256). */
  predicate AllBytes(s: string) {
    forall k :: 0 <= k < |s| ==> s[k] as int < 256
  }

  function Digit(b: nat): char
    requires b < 2
  {
    if b == 1 then '1' else '0'
  }

  function DigitValue(c: char): nat {
    if c == '1' then 1 else 0
  }

  function Pow2(k: nat): (p: nat)
    ensures p >= 1
  {
    if k == 0 then 1 else 2 * Pow2(k - 1)
  }

  lemma {:induction false} Pow2Monotone(a: nat, b: nat)
    requires a <= b
    ensures Pow2(a) <= Pow2(b)
  {
    if a < b {
      Pow2Monotone(a, b - 1);
    }
  }

  /** The number a string of binary digits denotes, most significant digit first. */
  function BitsValue(s: string): nat {
    if s == [] then 0 else 2 * BitsValue(s[..|s| - 1]) + DigitValue(s[|s| - 1])
  }

  lemma {:induction false} BitsValueBound(s: string)
    ensures BitsValue(s) < Pow2(|s|)
  {
    if s != [] {
      BitsValueBound(s[..|s| - 1]);
    }
  }

  /** Two binary strings of one length that denote the same number are the same string. */
  lemma {:induction false} BitsValueInjective(a: string, b: string)
    requires IsBinary(a) && IsBinary(b) && |a| == |b|
    requires BitsValue(a) == BitsValue(b)
    ensures a == b
  {
    if a != [] {
      var n := |a| - 1;
      assert DigitValue(a[n]) == DigitValue(b[n]);
      BitsValueInjective(a[..n], b[..n]);
      assert a == a[..n] + [a[n]];
      assert b == b[..n] + [b[n]];
    }
  }

  function Zeros(k: nat): (z: string)
    ensures |z| == k && IsBinary(z)
  {
    seq(k, _ => '0')
  }

  lemma {:induction false} LeadingZeros(k: nat, s: string)
    ensures BitsValue(Zeros(k) + s) == BitsValue(s)
    decreases |s|, k
  {
    if s == [] {
      if k > 0 {
        assert (Zeros(k) + s)[..k - 1] == Zeros(k - 1) + [];
        LeadingZeros(k - 1, []);
      }
      assert Zeros(k) + s == Zeros(k);
    } else {
      var n := |s| - 1;
      assert (Zeros(k) + s)[..k + n] == Zeros(k) + s[..n];
      LeadingZeros(k, s[..n]);
    }
  }

  /** The shortest binary numeral of n, as Python's `format(n, 'b')` writes it. */
  function BinaryDigits(n: nat): (r: string)
    ensures |r| >= 1 && IsBinary(r)
    decreases n
  {
    if n < 2 then [Digit(n)] else BinaryDigits(n / 2) + [Digit(n % 2)]
  }

  /** The numeral denotes n and has no leading zero. */
  lemma {:induction false} BinaryDigitsValue(n: nat)
    ensures BitsValue(BinaryDigits(n)) == n
    ensures |BinaryDigits(n)| >= 2 ==> Pow2(|BinaryDigits(n)| - 1) <= n
    decreases n
  {
    if n >= 2 {
      var d := BinaryDigits(n / 2);
      var r := d + [Digit(n % 2)];
      assert BinaryDigits(n) == r;
      BinaryDigitsValue(n / 2);
      assert r[..|d|] == d && r[|d|] == Digit(n % 2);
      assert BitsValue(r) == 2 * BitsValue(d) + n % 2;
      assert Pow2(|d|) == 2 * Pow2(|d| - 1);
    }
  }

  /** Python's `format(n, '08b')`: the binary numeral of n, zero-padded to at least eight digits. */
  function Format08b(n: nat): (r: string)
    ensures IsBinary(r) && |r| >= 8
  {
    var d := BinaryDigits(n);
    if |d| < 8 then Zeros(8 - |d|) + d else d
  }

  /** The padded numeral still denotes n; it is exactly eight digits long iff n fits in a byte. */
  lemma Format08bValue(n: nat)
    ensures BitsValue(Format08b(n)) == n
    ensures |Format08b(n)| == 8 <==> n < 256
  {
    var d := BinaryDigits(n);
    BinaryDigitsValue(n);
    assert Pow2(8) == 256;
    if |d| < 8 {
      LeadingZeros(8 - |d|, d);
      BitsValueBound(Zeros(8 - |d|) + d);
    } else if |d| > 8 {
      Pow2Monotone(8, |d| - 1);
    } else {
      BitsValueBound(d);
    }
  }

  /** text_to_binary: each character's `format(ord(c), '08b')`, concatenated in order. */
  function TextToBinary(s: string): (b: string)
    ensures IsBinary(b)
    ensures |b| >= 8 * |s|
  {
    if s == [] then [] else Format08b(s[0] as int) + TextToBinary(s[1..])
  }

  lemma AllBytesTail(s: string)
    requires s != []
    ensures AllBytes(s) <==> s[0] as int < 256 && AllBytes(s[1..])
  {
    if s[0] as int < 256 && AllBytes(s[1..]) {
      forall k | 0 <= k < |s| ensures s[k] as int < 256 {
        if k > 0 { assert s[k] == s[1..][k - 1]; }
      }
    }
  }

  /** Eight bits per character exactly when every character is a single byte. */
  lemma {:induction false} TextToBinaryLength(s: string)
    ensures AllBytes(s) <==> |TextToBinary(s)| == 8 * |s|
  {
    if s != [] {
      AllBytesTail(s);
      Format08bValue(s[0] as int);
      TextToBinaryLength(s[1..]);
    }
  }

  lemma {:induction false} TextToBinaryAppend(s: string, t: string)
    ensures TextToBinary(s + t) == TextToBinary(s) + TextToBinary(t)
  {
    if s != [] {
      assert (s + t)[0] == s[0] && (s + t)[1..] == s[1..] + t;
      TextToBinaryAppend(s[1..], t);
      Associative(Format08b(s[0] as int), TextToBinary(s[1..]), TextToBinary(t));
    } else {
      assert s + t == t;
    }
  }

  /**
   * Character k's group: text_to_binary(s) is the bits of s[..k], which are exactly 8k long,
   * then the padded numeral of s[k], then the bits of the rest.
   */
  lemma TextToBinaryGroup(s: string, k: nat)
    requires AllBytes(s) && k < |s|
    ensures |TextToBinary(s[..k])| == 8 * k
    ensures TextToBinary(s) == TextToBinary(s[..k]) + Format08b(s[k] as int) + TextToBinary(s[k + 1..])
  {
    BytesPrefix(s, k);
    TextToBinaryLength(s[..k]);
    TextToBinarySplit(s, k);
    var t := s[k..];
    assert t[0] == s[k] && t[1..] == s[k + 1..];
    assert TextToBinary(t) == Format08b(s[k] as int) + TextToBinary(s[k + 1..]);
    Associative(TextToBinary(s[..k]), Format08b(s[k] as int), TextToBinary(s[k + 1..]));
  }

  lemma TextToBinarySplit(s: string, k: nat)
    requires k <= |s|
    ensures TextToBinary(s) == TextToBinary(s[..k]) + TextToBinary(s[k..])
  {
    assert s == s[..k] + s[k..];
    TextToBinaryAppend(s[..k], s[k..]);
  }

  lemma BytesPrefix(s: string, k: nat)
    requires AllBytes(s) && k <= |s|
    ensures AllBytes(s[..k])
  {
    assert forall j | 0 <= j < k :: s[..k][j] == s[j];
  }

  /** The 8-character slices of b starting at 0, 8, 16, ...; the last one may be shorter. */
  function Chunks(b: string): (cs: seq<string>)
  {
    seq((|b| + 7) / 8, k requires 0 <= k < (|b| + 7) / 8 => b[8 * k .. Min(8 * k + 8, |b|)])
  }

  /** What one chunk adds to the text: `chr(int(c, 2))` for a full chunk of binary digits, nothing otherwise. */
  function DecodeChunk(c: string): (r: string)
    ensures |r| <= 1
    ensures r != [] <==> |c| == 8 && IsBinary(c)
  {
    if |c| == 8 && IsBinary(c) then
      BitsValueBound(c);
      assert Pow2(8) == 256;
      [BitsValue(c) as char]
    else []
  }

  /** A chunk that yields a character is exactly that character's eight bits. */
  lemma DecodeChunkInverse(c: string)
    requires DecodeChunk(c) != []
    ensures AllBytes(DecodeChunk(c))
    ensures TextToBinary(DecodeChunk(c)) == c
  {
    var ch := DecodeChunk(c)[0];
    BitsValueBound(c);
    assert Pow2(8) == 256;
    Format08bValue(ch as int);
    BitsValueInjective(Format08b(ch as int), c);
    assert TextToBinary([ch]) == Format08b(ch as int) + TextToBinary([]);
  }

  /** The text binary_to_text builds from b, chunk by chunk from the front. */
  function Decoded(b: string): (t: string)
    decreases |b|
  {
    if |b| < 8 then [] else DecodeChunk(b[..8]) + Decoded(b[8..])
  }

  /** The offset where chunk k starts, clamped to the end of b. */
  function ChunkStart(b: string, k: nat): nat {
    Min(8 * k, |b|)
  }

  /** Decoding from chunk k on is chunk k's contribution followed by decoding from chunk k + 1 on. */
  lemma DecodedStep(b: string, k: nat)
    requires k < |Chunks(b)|
    ensures Decoded(b[ChunkStart(b, k)..]) == DecodeChunk(Chunks(b)[k]) + Decoded(b[ChunkStart(b, k + 1)..])
  {
    var pos := 8 * k;
    assert pos < |b|;
    var rest := b[pos..];
    if pos + 8 <= |b| {
      assert rest[..8] == Chunks(b)[k];
      assert rest[8..] == b[ChunkStart(b, k + 1)..];
    } else {
      assert |Chunks(b)[k]| < 8 && |rest| < 8;
      assert b[ChunkStart(b, k + 1)..] == [];
    }
  }

  lemma Associative(a: string, b: string, c: string)
    ensures a + (b + c) == (a + b) + c
  {
  }

  /** The chunks reach the end of b. */
  lemma ChunksCover(b: string)
    ensures ChunkStart(b, |Chunks(b)|) == |b|
  {
    var n := |Chunks(b)|;
    assert n == (|b| + 7) / 8;
    assert 8 * n >= |b|;
  }

  /**
   * binary_to_text: walks the chunks in order, appending the character of each full chunk
   * that parses and skipping the rest; it never fails.
   */
  method BinaryToText(b: string) returns (text: string)
    ensures text == Decoded(b)
  {
    var chars := Chunks(b);
    text := "";
    var k := 0;
    while k < |chars|
      invariant 0 <= k <= |chars|
      invariant Decoded(b) == text + Decoded(b[ChunkStart(b, k)..])
    {
      var c := chars[k];
      DecodedStep(b, k);
      ghost var rest := Decoded(b[ChunkStart(b, k + 1)..]);
      if |c| == 8 && IsBinary(c) {
        Associative(text, DecodeChunk(c), rest);
        text := text + DecodeChunk(c);
      } else {
        assert DecodeChunk(c) + rest == rest;
      }
      k := k + 1;
    }
    ChunksCover(b);
    assert b[|b|..] == [];
  }

  lemma BinaryTail(b: string, n: nat)
    requires IsBinary(b) && n <= |b|
    ensures IsBinary(b[..n]) && IsBinary(b[n..])
  {
    assert forall j | 0 <= j < |b| - n :: b[n..][j] == b[j + n];
  }

  /** For binary input: one character per full chunk, character k from bits [8k, 8k+8). */
  lemma {:induction false} DecodedShape(b: string)
    requires IsBinary(b)
    ensures |Decoded(b)| == |b| / 8
    ensures AllBytes(Decoded(b))
    ensures forall k :: 0 <= k < |b| / 8 ==> Decoded(b)[k] as int == BitsValue(b[8 * k .. 8 * k + 8])
  {
    if |b| >= 8 {
      BinaryTail(b, 8);
      DecodedShape(b[8..]);
      var head, tail := DecodeChunk(b[..8]), Decoded(b[8..]);
      var t := Decoded(b);
      assert t == head + tail;
      assert |head| == 1 && head[0] as int == BitsValue(b[..8]) < 256 by {
        BitsValueBound(b[..8]);
        assert Pow2(8) == 256;
      }
      forall k | 0 <= k < |b| / 8 ensures t[k] as int == BitsValue(b[8 * k .. 8 * k + 8]) {
        if k > 0 {
          var j := 8 * (k - 1);
          assert 8 * k == j + 8;
          assert t[k] == tail[k - 1];
          assert b[8..][j .. j + 8] == b[j + 8 .. j + 16];
        } else {
          assert b[8 * k .. 8 * k + 8] == b[..8];
        }
      }
      forall k | 0 <= k < |t| ensures t[k] as int < 256 {
        if k > 0 { assert t[k] == tail[k - 1]; }
      }
    }
  }

  /** binary_to_text(text_to_binary(s)) == s for every text of single-byte characters. */
  lemma {:induction false} TextRoundTrip(s: string)
    requires AllBytes(s)
    ensures Decoded(TextToBinary(s)) == s
  {
    if s != [] {
      AllBytesTail(s);
      TextRoundTrip(s[1..]);
      var head := Format08b(s[0] as int);
      var b := head + TextToBinary(s[1..]);
      assert TextToBinary(s) == b;
      Format08bValue(s[0] as int);
      assert b[..8] == head && b[8..] == TextToBinary(s[1..]);
      var d := DecodeChunk(head);
      DecodeChunkInverse(head);
      assert TextToBinary(d) == Format08b(d[0] as int) + TextToBinary([]);
      Format08bValue(d[0] as int);
      assert d[0] == s[0];
      assert d == [s[0]];
      assert s == [s[0]] + s[1..];
    }
  }

  /** text_to_binary(binary_to_text(b)) == b for a binary string cut into whole chunks. */
  lemma {:induction false} BitsRoundTrip(b: string)
    requires IsBinary(b) && |b| % 8 == 0
    ensures TextToBinary(Decoded(b)) == b
  {
    if b != [] {
      BinaryTail(b, 8);
      BitsRoundTrip(b[8..]);
      var head := DecodeChunk(b[..8]);
      assert Decoded(b) == head + Decoded(b[8..]);
      DecodeChunkInverse(b[..8]);
      TextToBinaryAppend(head, Decoded(b[8..]));
      assert b == b[..8] + b[8..];
    }
  }

  /** A trailing chunk shorter than eight bits contributes nothing. */
  lemma {:induction false} PartialChunkDropped(b: string)
    ensures Decoded(b) == Decoded(b[..|b| - |b| % 8])
  {
    if |b| >= 8 {
      var r := |b| % 8;
      var c, tail := b[..|b| - r], b[8..];
      assert |tail| % 8 == r;
      PartialChunkDropped(tail);
      assert |c| >= 8 && c[..8] == b[..8];
      assert c[8..] == tail[..|tail| - r];
    }
  }

  /** The size load_image trims an image dimension to: one less when it is odd. */
  function EvenTrim(n: nat): (m: nat)
    ensures m % 2 == 0 && m <= n && n - m <= 1
    ensures n % 2 == 0 <==> m == n
  {
    if n % 2 == 0 then n else n - 1
  }

  /** load_image's new (height, width), and whether the array is cut at all. */
  function TrimDimensions(h: nat, w: nat): (d: (nat, nat, bool))
    ensures d.0 % 2 == 0 && d.1 % 2 == 0
    ensures d.0 <= h <= d.0 + 1 && d.1 <= w <= d.1 + 1
    ensures d.2 <==> h % 2 == 1 || w % 2 == 1
  {
    var newH := EvenTrim(h);
    var newW := EvenTrim(w);
    (newH, newW, newH != h || newW != w)
  }
}
