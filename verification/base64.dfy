/** The base64 encoding of section 4 of RFC 4648 (standard alphabet, `=`
    padding, no line breaks), which is what Python's `base64.b64encode`
    produces.  The encoder is the operation the signature uses; the decoder
    is its inverse, written here so that the encoder's injectivity and its
    exact output shape can be proved. */
module Base64 {
  import opened Wrappers

  /** An octet. */
  type byte = x: int | 0 <= x < 256

  /** The pad character of section 4 of RFC 4648. */
  const Pad: char := '='

  /** The character for the 6-bit value `i`, following Table 1 of RFC 4648:
      0..25 are `A`..`Z`, 26..51 are `a`..`z`, 52..61 are `0`..`9`, then `+`
      and `/`. */
  function IndexChar(i: nat): (c: char)
    requires i < 64
  {
    if i < 26 then ('A' as int + i) as char
    else if i < 52 then ('a' as int + (i - 26)) as char
    else if i < 62 then ('0' as int + (i - 52)) as char
    else if i == 62 then '+'
    else '/'
  }

  /** Membership in the 64-character alphabet of Table 1 of RFC 4648. */
  predicate IsAlphabetChar(c: char) {
    ('A' <= c <= 'Z') || ('a' <= c <= 'z') || ('0' <= c <= '9') || c == '+' || c == '/'
  }

  /** The 6-bit value a character stands for, if it is in the alphabet. */
  function CharIndex(c: char): (r: Option<nat>)
    ensures r.Some? <==> IsAlphabetChar(c)
    ensures r.Some? ==> r.value < 64 && IndexChar(r.value) == c
  {
    if 'A' <= c <= 'Z' then Some(c as int - 'A' as int)
    else if 'a' <= c <= 'z' then Some(c as int - 'a' as int + 26)
    else if '0' <= c <= '9' then Some(c as int - '0' as int + 52)
    else if c == '+' then Some(62)
    else if c == '/' then Some(63)
    else None
  }

  /** Every 6-bit value has exactly one character, and reading that character
      back gives the value. */
  lemma IndexCharInverse(i: nat)
    requires i < 64
    ensures IsAlphabetChar(IndexChar(i))
    ensures CharIndex(IndexChar(i)) == Some(i)
    ensures IndexChar(i) != Pad
  {
  }

  /** The number of `=` characters that end the encoding of `n` octets. */
  function PadCount(n: nat): (pads: nat) {
    (3 - n % 3) % 3
  }

  /** The 6-bit values (sextets) that carry the bits of a group of one to
      three octets, most significant first.  Missing octets count as zero
      bits, and only the sextets that hold input bits are kept: `|g| + 1`
      of them. */
  function Sextets(g: seq<byte>): (sx: seq<nat>)
    requires 1 <= |g| <= 3
    ensures |sx| == |g| + 1
    ensures forall i :: 0 <= i < |sx| ==> sx[i] < 64
  {
    var x := g[0];
    var y := if |g| > 1 then g[1] else 0;
    var z := if |g| > 2 then g[2] else 0;
    [x / 4, (x % 4) * 16 + y / 16, (y % 16) * 4 + z / 64, z % 64][..|g| + 1]
  }

  /** Two to four sextets that a group of octets can produce: each below
      64, and the bits past the last whole octet zero. */
  predicate CanonicalSextets(sx: seq<nat>) {
    && 2 <= |sx| <= 4
    && (forall i :: 0 <= i < |sx| ==> sx[i] < 64)
    && (|sx| == 2 ==> sx[1] % 16 == 0)
    && (|sx| == 3 ==> sx[2] % 4 == 0)
  }

  /** The octets whose bits the sextets carry, dropping the trailing zero bits. */
  function Octets(sx: seq<nat>): (g: seq<byte>)
    requires CanonicalSextets(sx)
    ensures |g| == |sx| - 1
  {
    var s2 := if |sx| > 2 then sx[2] else 0;
    var s3 := if |sx| > 3 then sx[3] else 0;
    [sx[0] * 4 + sx[1] / 16, (sx[1] % 16) * 16 + s2 / 4, (s2 % 4) * 64 + s3][..|sx| - 1]
  }

  /** The sextets of a group are canonical and carry exactly its octets. */
  lemma OctetsOfSextets(g: seq<byte>)
    requires 1 <= |g| <= 3
    ensures CanonicalSextets(Sextets(g))
    ensures Octets(Sextets(g)) == g
  {
  }

  /** Canonical sextets are exactly the sextets of the octets they carry. */
  lemma SextetsOfOctets(sx: seq<nat>)
    requires CanonicalSextets(sx)
    ensures Sextets(Octets(sx)) == sx
  {
  }

  /** The four characters for a group of one to three octets: the alphabet
      characters of its sextets, then `=` up to a length of four. */
  function EncodeGroup(g: seq<byte>): (s: string)
    requires 1 <= |g| <= 3
    ensures |s| == 4
  {
    var sx := Sextets(g);
    [ IndexChar(sx[0]),
      IndexChar(sx[1]),
      if |g| > 1 then IndexChar(sx[2]) else Pad,
      if |g| > 2 then IndexChar(sx[3]) else Pad ]
  }

  /** Base64 encoding of an octet sequence, three octets at a time. */
  function Encode(data: seq<byte>): (s: string)
    decreases |data|
  {
    if |data| == 0 then ""
    else if |data| <= 3 then EncodeGroup(data)
    else EncodeGroup(data[..3]) + Encode(data[3..])
  }

  /** Whether every character of `s` is in the alphabet. */
  predicate AllAlphabet(s: string) {
    forall i :: 0 <= i < |s| ==> IsAlphabetChar(s[i])
  }

  /** The number of characters of a four-character group that are not
      trailing padding: four, three (`xxx=`) or two (`xx==`). */
  function DataChars(q: string): (n: nat)
    requires |q| == 4
    ensures 2 <= n <= 4
  {
    if q[3] != Pad then 4 else if q[2] != Pad then 3 else 2
  }

  /** Decodes four characters, of which the last one or two may be `=`.
      Padding bits must be zero, so that only canonical groups are accepted. */
  function DecodeGroup(q: string): (r: Option<seq<byte>>)
    requires |q| == 4
  {
    var n := DataChars(q);
    if !AllAlphabet(q[..n]) then None
    else
      var sx := seq(n, i requires 0 <= i < n => CharIndex(q[i]).value);
      if CanonicalSextets(sx) then Some(Octets(sx)) else None
  }

  /** Base64 decoding: the inverse of `Encode`.  It rejects lengths that are
      not a multiple of four, characters outside the alphabet, padding
      anywhere but at the very end, and non-zero padding bits. */
  function Decode(s: string): (r: Option<seq<byte>>)
    decreases |s|
  {
    if |s| == 0 then Some([])
    else if |s| < 4 then None
    else
      var g := DecodeGroup(s[..4]);
      if g.None? then None
      else if |s| == 4 then g
      else if |g.value| < 3 then None
      else
        var rest := Decode(s[4..]);
        if rest.None? then None else Some(g.value + rest.value)
  }

  /** One group decodes back to the octets it was encoded from. */
  lemma GroupRoundTrip(g: seq<byte>)
    requires 1 <= |g| <= 3
    ensures DecodeGroup(EncodeGroup(g)) == Some(g)
  {
    var sx := Sextets(g);
    var q := EncodeGroup(g);
    forall i | 0 <= i < |sx|
      ensures IsAlphabetChar(q[i]) && CharIndex(q[i]) == Some(sx[i])
    {
      IndexCharInverse(sx[i]);
    }
    assert DataChars(q) == |sx|;
    var decoded := seq(|sx|, i requires 0 <= i < |sx| => CharIndex(q[i]).value);
    assert decoded == sx;
    OctetsOfSextets(g);
  }

  /** A string of exactly four characters decodes as one group. */
  lemma LastGroup(q: string)
    requires |q| == 4
    ensures Decode(q) == DecodeGroup(q)
  {
    assert q[..4] == q;
  }

  /** Decoding a full unpadded group followed by more characters decodes
      the group and then the rest. */
  lemma DecodeCons(q: string, rest: string)
    requires |q| == 4 && |rest| > 0
    requires DecodeGroup(q).Some? && |DecodeGroup(q).value| == 3
    ensures Decode(q + rest) ==
      if Decode(rest).None? then None else Some(DecodeGroup(q).value + Decode(rest).value)
  {
  }

  /** Decoding undoes encoding, for every octet sequence. */
  lemma {:induction false} DecodeEncode(data: seq<byte>)
    ensures Decode(Encode(data)) == Some(data)
    decreases |data|
  {
    if |data| == 0 {
    } else if |data| <= 3 {
      assert Encode(data) == EncodeGroup(data);
      GroupRoundTrip(data);
      LastGroup(EncodeGroup(data));
    } else {
      var head, tail := data[..3], data[3..];
      assert Encode(data) == EncodeGroup(head) + Encode(tail);
      GroupRoundTrip(head);
      EncodeLength(tail);
      DecodeEncode(tail);
      DecodeCons(EncodeGroup(head), Encode(tail));
      assert data == head + tail;
    }
  }

  /** The encoding of `n` octets has `4 * ceil(n / 3)` characters. */
  lemma {:induction false} EncodeLength(data: seq<byte>)
    ensures |Encode(data)| == 4 * ((|data| + 2) / 3)
    decreases |data|
  {
    if |data| > 3 {
      EncodeLength(data[3..]);
      assert (|data| + 2) / 3 == (|data[3..]| + 2) / 3 + 1;
    }
  }

  /** A canonical group re-encodes to the same four characters. */
  lemma GroupCanonical(q: string)
    requires |q| == 4
    requires DecodeGroup(q).Some?
    ensures 1 <= |DecodeGroup(q).value| <= 3
    ensures EncodeGroup(DecodeGroup(q).value) == q
    ensures |DecodeGroup(q).value| < 3 <==> q[3] == Pad
  {
    var n := DataChars(q);
    var sx := seq(n, i requires 0 <= i < n => CharIndex(q[i]).value);
    assert DecodeGroup(q) == Some(Octets(sx));
    SextetsOfOctets(sx);
    var e := EncodeGroup(Octets(sx));
    forall i | 0 <= i < 4
      ensures e[i] == q[i]
    {
      if i < n {
        assert IsAlphabetChar(q[i]);
      }
    }
  }

  /** Every string the decoder accepts is the encoding of what it decodes
      to: the encoding is a bijection between octet sequences and the
      strings `Decode` accepts. */
  lemma {:induction false} EncodeDecode(s: string)
    requires Decode(s).Some?
    ensures Encode(Decode(s).value) == s
    decreases |s|
  {
    if |s| > 0 {
      GroupCanonical(s[..4]);
      var g := DecodeGroup(s[..4]).value;
      if |s| == 4 {
        assert s == s[..4];
      } else {
        var rest := Decode(s[4..]).value;
        EncodeDecode(s[4..]);
        var data := g + rest;
        assert data[..3] == g;
        assert data[3..] == rest;
        assert s == s[..4] + s[4..];
      }
    }
  }

  /** Distinct octet sequences have distinct encodings. */
  lemma EncodeInjective(a: seq<byte>, b: seq<byte>)
    requires Encode(a) == Encode(b)
    ensures a == b
  {
    DecodeEncode(a);
    DecodeEncode(b);
  }

  /** `s` is `p` pad characters preceded by alphabet characters only. */
  predicate PaddedShape(s: string, p: nat) {
    && p <= |s|
    && AllAlphabet(s[..|s| - p])
    && forall i :: |s| - p <= i < |s| ==> s[i] == Pad
  }

  /** Unpadded alphabet characters in front keep the shape. */
  lemma PaddedShapeConcat(h: string, t: string, p: nat)
    requires PaddedShape(h, 0) && PaddedShape(t, p)
    ensures PaddedShape(h + t, p)
  {
  }

  /** The shape of an encoding: every character is from the alphabet except
      the last `PadCount(|data|)`, which are `=`. */
  lemma {:induction false} EncodeShape(data: seq<byte>)
    ensures PaddedShape(Encode(data), PadCount(|data|))
    decreases |data|
  {
    if |data| <= 3 {
      EncodeShapeShort(data);
    } else {
      EncodeShape(data[3..]);
      EncodeShapeStep(data);
    }
  }

  /** The shape of the encoding of at most one group. */
  lemma EncodeShapeShort(data: seq<byte>)
    requires |data| <= 3
    ensures PaddedShape(Encode(data), PadCount(|data|))
  {
    if |data| > 0 {
      assert Encode(data) == EncodeGroup(data);
      GroupShape(data);
    }
  }

  /** A full group in front of an encoding of the right shape keeps it. */
  lemma EncodeShapeStep(data: seq<byte>)
    requires |data| > 3
    requires PaddedShape(Encode(data[3..]), PadCount(|data[3..]|))
    ensures PaddedShape(Encode(data), PadCount(|data|))
  {
    var head, tail := data[..3], data[3..];
    PadCountStep(|tail|);
    assert Encode(data) == EncodeGroup(head) + Encode(tail);
    GroupShape(head);
    PaddedShapeConcat(EncodeGroup(head), Encode(tail), PadCount(|tail|));
  }

  /** Three more octets need as many pads. */
  lemma PadCountStep(n: nat)
    ensures PadCount(n + 3) == PadCount(n)
  {
  }

  /** The characters of one group: alphabet characters then `3 - |g|` pads. */
  lemma GroupShape(g: seq<byte>)
    requires 1 <= |g| <= 3
    ensures PaddedShape(EncodeGroup(g), PadCount(|g|))
  {
  }
}
