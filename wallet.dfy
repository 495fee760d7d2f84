/**
 * The wallet helpers of the signed chain: `sign_art` signs an artwork hash and base64-encodes the
 * signature; `verify_signature` decodes it and checks it, answering false on any failure.
 * The curve arithmetic and base64 are not modelled: they are parameters.
 */
module Wallet {
  import opened Wrappers

  type Bytes = seq<bv8>

  /** `base64.b64encode(..).decode()`, and `base64.b64decode`, which raises on text it cannot decode. */
  datatype Base64 = Base64(encode: Bytes -> string, decode: string -> Option<Bytes>)

  /**
   * A key pair's signing and checking: `sign` is `sk.sign(msg.encode())`; `verify` is
   * `vk.verify(sig, msg.encode())`, where false stands for every exception it raises.
   */
  datatype Curve<!SK, !VK> = Curve(sign: (SK, string) -> Bytes, verify: (VK, Bytes, string) -> bool)

  /** `sign_art`: the base64 text of the signature of the artwork hash. */
  function SignArt<SK, VK>(curve: Curve<SK, VK>, b64: Base64, sk: SK, artHash: string): (signature: string)
    ensures b64.decode(b64.encode(curve.sign(sk, artHash))) == Some(curve.sign(sk, artHash)) ==>
              b64.decode(signature) == Some(curve.sign(sk, artHash))
  {
    b64.encode(curve.sign(sk, artHash))
  }

  /** `verify_signature`: true exactly when the text decodes and the curve accepts the decoded bytes. */
  function VerifySignature<SK, VK>(curve: Curve<SK, VK>, b64: Base64, vk: VK, artHash: string, signature: string): (ok: bool)
  {
    match b64.decode(signature)
    case None => false
    case Some(sig) => curve.verify(vk, sig, artHash)
  }

  /** A signature text that base64 cannot decode is rejected rather than raising. */
  lemma UndecodableRejected<SK, VK>(curve: Curve<SK, VK>, b64: Base64, vk: VK, artHash: string, signature: string)
    requires b64.decode(signature).None?
    ensures !VerifySignature(curve, b64, vk, artHash, signature)
  {
  }

  /** Bytes the curve rejects are rejected, whichever text carries them. */
  lemma ForgeryRejected<SK, VK>(curve: Curve<SK, VK>, b64: Base64, vk: VK, artHash: string, signature: string)
    requires b64.decode(signature).Some? && !curve.verify(vk, b64.decode(signature).value, artHash)
    ensures !VerifySignature(curve, b64, vk, artHash, signature)
  {
  }

  /**
   * Signing then verifying with the matching key succeeds, given that base64 decodes what it
   * encodes and the curve accepts its own signatures.
   */
  lemma SignThenVerify<SK, VK>(curve: Curve<SK, VK>, b64: Base64, sk: SK, vk: VK, artHash: string)
    requires b64.decode(b64.encode(curve.sign(sk, artHash))) == Some(curve.sign(sk, artHash))
    requires curve.verify(vk, curve.sign(sk, artHash), artHash)
    ensures VerifySignature(curve, b64, vk, artHash, SignArt(curve, b64, sk, artHash))
  {
  }

  /** The verdict does not depend on which text carries the bytes: only the decoded bytes matter. */
  lemma VerdictFollowsBytes<SK, VK>(curve: Curve<SK, VK>, b64: Base64, vk: VK, artHash: string, s1: string, s2: string)
    requires b64.decode(s1) == b64.decode(s2)
    ensures VerifySignature(curve, b64, vk, artHash, s1) == VerifySignature(curve, b64, vk, artHash, s2)
  {
  }
}
