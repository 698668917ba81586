/**
 * The mirror fingerprint of a path: the first six characters of the SHA-256 hex digest of the
 * path's latin-1 encoding. SHA-256 itself is not modelled; it is a parameter of type `Digest`,
 * any function from byte strings to 64 lower-case hexadecimal characters.
 */
module Fingerprint {
  import opened Wrappers

  type Byte = b: int | 0 <= b < 256

  predicate IsLowerHex(c: char) {
    '0' <= c <= '9' || 'a' <= c <= 'f'
  }

  predicate IsHex(s: string) {
    forall i :: 0 <= i < |s| ==> IsLowerHex(s[i])
  }

  /** What `hashlib.sha256(...).hexdigest()` returns. */
  type HexDigest = s: string | |s| == 64 && IsHex(s) witness seq(64, _ => '0')

  type Digest = seq<Byte> -> HexDigest

  predicate IsLatin1(s: string) {
    forall i :: 0 <= i < |s| ==> s[i] as int < 256
  }

  /** `s.encode("latin-1")`, or `None` where Python raises `UnicodeEncodeError`. */
  function Latin1(s: string): (r: Option<seq<Byte>>)
    ensures r.Some? <==> IsLatin1(s)
    ensures r.Some? ==> |r.value| == |s| && forall i :: 0 <= i < |s| ==> r.value[i] == s[i] as int
  {
    if s == [] then Some([])
    else if s[0] as int >= 256 then None
    else match Latin1(s[1..])
      case None => None
      case Some(bs) => Some([s[0] as int as Byte] + bs)
  }

  /** `hashlib.sha256(s.encode("latin-1")).hexdigest()[:6]`. */
  function ShortHash(digest: Digest, s: string): (r: Option<string>)
    ensures r.Some? <==> IsLatin1(s)
    ensures r.Some? ==> |r.value| == 6 && IsHex(r.value)
  {
    match Latin1(s)
    case None => None
    case Some(bytes) => Some(digest(bytes)[..6])
  }
}
