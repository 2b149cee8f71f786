/** The webhook signature primitive: `calc_line_signature` computes the
    base64 (section 4 of RFC 4648) of HMAC-SHA256 (RFC 2104) of the request
    body keyed by the channel secret, and `verify_line_signature` checks an
    `X-Line-Signature` header against it.

    HMAC-SHA256 and UTF-8 string encoding are not modelled bit by bit: they
    are supplied as function values in `Primitives`, and the only fact used
    about HMAC-SHA256 is that its digest is 32 octets, which the type
    `Digest` carries. */
module Signature {
  import opened Wrappers
  import Base64

  type byte = Base64.byte

  /** An HMAC-SHA256 output: 32 octets. */
  type Digest = d: seq<byte> | |d| == 32 witness seq(32, _ => 0)

  /** The two library functions the signature is built from: HMAC-SHA256
      over (key, message), and `str.encode()` (UTF-8). */
  datatype Primitives = Primitives(
    hmacSha256: (seq<byte>, seq<byte>) -> Digest,
    utf8: string -> seq<byte>)

  /** A request body as Python may pass it: `str` or `bytes`. */
  datatype Body = Text(text: string) | Bytes(data: seq<byte>)

  /** The exception `verify_line_signature` can raise (see `CompareDigest`). */
  datatype VerifyError = NonAsciiComparison

  /** The octets that are signed: a `str` body is UTF-8 encoded first. */
  function BodyOctets(p: Primitives, body: Body): (octets: seq<byte>) {
    match body
    case Text(t) => p.utf8(t)
    case Bytes(b) => b
  }

  /** Whether every character of `s` is ASCII. */
  predicate IsAscii(s: string) {
    forall i :: 0 <= i < |s| ==> s[i] as int < 128
  }

  /** The length of the base64 encoding of a 32-octet digest: 4 * ceil(32 / 3). */
  const SignatureLength: nat := 44

  /** The base64 encoding of a digest decodes back to it, is 44 characters
      long, consists of alphabet characters and ends in exactly one `=`. */
  lemma DigestEncoding(d: Digest)
    ensures Base64.Decode(Base64.Encode(d)) == Some(d)
    ensures |Base64.Encode(d)| == SignatureLength
    ensures forall i :: 0 <= i < SignatureLength - 1 ==> Base64.IsAlphabetChar(Base64.Encode(d)[i])
    ensures Base64.Encode(d)[SignatureLength - 1] == Base64.Pad
    ensures IsAscii(Base64.Encode(d))
  {
    var s := Base64.Encode(d);
    assert Base64.PadCount(|d|) == 1;
    Base64.EncodeLength(d);
    Base64.EncodeShape(d);
    AlphabetPrefixAscii(s, 1);
    Base64.DecodeEncode(d);
  }

  /** A string of alphabet characters followed by pads is ASCII, and each
      of its characters before the pads is an alphabet character. */
  lemma AlphabetPrefixAscii(s: string, p: nat)
    requires Base64.PaddedShape(s, p)
    ensures forall i :: 0 <= i < |s| - p ==> Base64.IsAlphabetChar(s[i])
    ensures IsAscii(s)
  {
  }

  /** `calc_line_signature`: base64 of HMAC-SHA256(secret, body).  The result
      decodes to exactly that digest, is 44 characters long, consists of
      alphabet characters and ends in exactly one `=`. */
  function CalcSignature(p: Primitives, secret: string, body: Body): (sig: string)
    ensures Base64.Decode(sig) == Some(p.hmacSha256(p.utf8(secret), BodyOctets(p, body)))
    ensures |sig| == SignatureLength
    ensures forall i :: 0 <= i < SignatureLength - 1 ==> Base64.IsAlphabetChar(sig[i])
    ensures sig[SignatureLength - 1] == Base64.Pad
    ensures IsAscii(sig)
  {
    var digest := p.hmacSha256(p.utf8(secret), BodyOctets(p, body));
    DigestEncoding(digest);
    Base64.Encode(digest)
  }

  /** Python's `hmac.compare_digest` on two `str` values: it raises
      `TypeError` when either string holds a non-ASCII character, and
      otherwise reports whether they are equal. */
  function CompareDigest(a: string, b: string): (r: Result<bool, VerifyError>)
    ensures r.Failure? <==> !(IsAscii(a) && IsAscii(b))
    ensures r.Success? ==> (r.value <==> a == b)
  {
    if IsAscii(a) && IsAscii(b) then Success(a == b) else Failure(NonAsciiComparison)
  }

  /** `verify_line_signature` as written: `None` and `""` give `False`;
      any other header is compared with `hmac.compare_digest`, which raises
      for a header with a non-ASCII character. */
  function VerifyAsWritten(p: Primitives, secret: string, body: Body, header: Option<string>): (r: Result<bool, VerifyError>)
    ensures header.None? || header == Some("") ==> r == Success(false)
    ensures r.Failure? <==> header.Some? && header.value != "" && !IsAscii(header.value)
    ensures r.Success? ==> (r.value <==> header == Some(CalcSignature(p, secret, body)))
  {
    if header.None? || header.value == "" then Success(false)
    else CompareDigest(CalcSignature(p, secret, body), header.value)
  }

  /** `verify_line_signature` as its docstring and `-> bool` annotation
      present it: a total check that accepts exactly the header carrying the
      body's signature.  It differs from `VerifyAsWritten` only on non-ASCII
      headers, where it returns false instead of raising. */
  function Verify(p: Primitives, secret: string, body: Body, header: Option<string>): (ok: bool)
    ensures ok <==> header.Some? && header.value != "" && header.value == CalcSignature(p, secret, body)
  {
    match header
    case None => false
    case Some(h) => h != "" && IsAscii(h) && h == CalcSignature(p, secret, body)
  }

  /** The computed signature is always accepted. */
  lemma VerifyAcceptsSignature(p: Primitives, secret: string, body: Body)
    ensures Verify(p, secret, body, Some(CalcSignature(p, secret, body)))
    ensures VerifyAsWritten(p, secret, body, Some(CalcSignature(p, secret, body))) == Success(true)
  {
  }

  /** A missing or empty header is rejected whatever the secret and body. */
  lemma VerifyRejectsMissingHeader(p: Primitives, secret: string, body: Body)
    ensures !Verify(p, secret, body, None)
    ensures !Verify(p, secret, body, Some(""))
  {
  }

  /** The empty-header test is subsumed by the comparison, since a signature
      is never empty: verification is exactly equality with the computed
      signature. */
  lemma VerifyIsEquality(p: Primitives, secret: string, body: Body, header: Option<string>)
    ensures Verify(p, secret, body, header) <==> header == Some(CalcSignature(p, secret, body))
  {
  }

  /** Where the code as written returns, it agrees with `Verify`; where it
      raises, `Verify` rejects. */
  lemma VerifyAsWrittenAgrees(p: Primitives, secret: string, body: Body, header: Option<string>)
    ensures VerifyAsWritten(p, secret, body, header).Success? ==>
      VerifyAsWritten(p, secret, body, header).value == Verify(p, secret, body, header)
    ensures VerifyAsWritten(p, secret, body, header).Failure? ==> !Verify(p, secret, body, header)
  {
  }

  /** The discrepancy: a header holding a single `é` (which an HTTP header
      decoded as Latin-1 can carry) makes the code as written raise, while
      the intended check returns false. */
  lemma NonAsciiHeaderRaises(p: Primitives, secret: string, body: Body)
    ensures VerifyAsWritten(p, secret, body, Some("é")) == Failure(NonAsciiComparison)
    ensures !Verify(p, secret, body, Some("é"))
  {
    assert "é"[0] as int >= 128;
  }

  /** A `str` body signs the same as its UTF-8 encoding passed as `bytes`. */
  lemma TextBodySignsItsEncoding(p: Primitives, secret: string, text: string)
    ensures CalcSignature(p, secret, Text(text)) == CalcSignature(p, secret, Bytes(p.utf8(text)))
  {
  }

  /** Bodies whose HMAC digests differ have different signatures, so a
      header accepted for one of them is rejected for the other. */
  lemma DistinctDigestsDistinctSignatures(p: Primitives, secret: string, b1: Body, b2: Body)
    requires p.hmacSha256(p.utf8(secret), BodyOctets(p, b1)) != p.hmacSha256(p.utf8(secret), BodyOctets(p, b2))
    ensures CalcSignature(p, secret, b1) != CalcSignature(p, secret, b2)
    ensures Verify(p, secret, b1, Some(CalcSignature(p, secret, b1)))
    ensures !Verify(p, secret, b2, Some(CalcSignature(p, secret, b1)))
  {

  }
}
