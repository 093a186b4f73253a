/** utils/crypto.py: the Fernet codec for the license token and the
    signature check over the license claims. The cryptography itself is
    abstract: Fernet is a pair of functions bound by a round-trip law, and
    RSASSA-PKCS1-v1_5 with SHA-256 (section 8.2 of RFC 8017) is an oracle. */
module Crypto {
  import opened Wrappers
  import opened ByteStrings
  import Json

  /** The Fernet instance built from the embedded key. `encrypt` also takes
      the random material (IV and timestamp) Fernet draws on every call;
      `decrypt` gives None where Fernet raises InvalidToken. */
  datatype Fernet = Fernet(encrypt: (Bytes, Bytes) -> Bytes, decrypt: Bytes -> Option<Bytes>)

  /** The codec's law: every token decrypts to the plaintext it was made from,
      whatever random material went into it. */
  ghost predicate RoundTrips(f: Fernet) {
    forall plain, nonce :: f.decrypt(f.encrypt(plain, nonce)) == Some(plain)
  }

  /** `str()` of `cryptography.fernet.InvalidToken`, which carries no message. */
  const INVALID_TOKEN_MESSAGE := ""

  /** `encrypt_license(data)`. */
  function EncryptLicense(f: Fernet, data: Bytes, nonce: Bytes): (token: Bytes)
    ensures RoundTrips(f) ==> f.decrypt(token) == Some(data)
  {
    f.encrypt(data, nonce)
  }

  /** `decrypt_license(token)`: the plaintext, or InvalidToken raised. */
  function DecryptLicense(f: Fernet, token: Bytes): (r: PyCall<Bytes>)
    ensures r.Raised? ==> r.error == INVALID_TOKEN_MESSAGE
  {
    match f.decrypt(token)
    case None => Raised(INVALID_TOKEN_MESSAGE)
    case Some(plain) => Returned(plain)
  }

  /** What the issuer encrypts, the gate decrypts. */
  lemma CodecRoundTrip(f: Fernet, data: Bytes, nonce: Bytes)
    requires RoundTrips(f)
    ensures DecryptLicense(f, EncryptLicense(f, data, nonce)) == Returned(data)
  {
  }

  /** A public key as `load_pem_public_key` returns it. */
  datatype PublicKey = PublicKey(spki: Bytes)

  /** How `public_key.verify(...)` ended: it returned, it raised
      InvalidSignature, or it raised some other exception. */
  datatype VerifyOutcome = Verified | InvalidSignature | OtherException(error: string)

  /** The public-key primitives: PEM loading, which raises on malformed
      material, and PKCS#1 v1.5 / SHA-256 verification of a signature over
      a byte string. */
  datatype Rsa = Rsa(loadPem: Bytes -> PyCall<PublicKey>,
                     verify: (PublicKey, Bytes, Bytes) -> VerifyOutcome)

  const SIGNATURE_KEY := "signature"

  /** The claims the signature covers: every item but `signature`. */
  function SignedData(d: Json.Dict): (r: Json.Dict)
    ensures Json.Keys(r) == Json.Keys(d) - {SIGNATURE_KEY}
    ensures forall k :: k != SIGNATURE_KEY ==> Json.Get(r, k) == Json.Get(d, k)
    ensures forall x :: x in r <==> x in d && x.key != SIGNATURE_KEY
  {
    Json.Without(d, SIGNATURE_KEY)
  }

  /** `json.dumps(d, sort_keys=True).encode("utf-8")`. */
  function CanonicalBytes(d: Json.Dict): (r: Bytes)
    ensures |r| == |Json.Dumps(Json.SortByKey(d))|
  {
    Utf8Encode(Json.Dumps(Json.SortByKey(d)))
  }

  /** The AttributeError raised by `payload.get` when the JSON was not an object. */
  function NoGetMessage(typeName: string): string {
    "'" + typeName + "' object has no attribute 'get'"
  }

  /** `verify_signature(payload, public_key_pem)`. */
  function VerifySignature(rsa: Rsa, payload: Json.Value, pem: Bytes): (r: PyCall<bool>)
    ensures r == Returned(true) ==> payload.Object?
  {
    match payload
    case NonObject(t) => Raised(NoGetMessage(t))
    case Object(d) =>
      var signatureHex := Json.Get(d, SIGNATURE_KEY);
      if signatureHex.None? || signatureHex.value == "" then Returned(false)
      else
        match FromHex(signatureHex.value)
        case None => Returned(false)
        case Some(signature) =>
          var data := CanonicalBytes(SignedData(d));
          match rsa.loadPem(pem)
          case Raised(e) => Raised(e)
          case Returned(key) => Returned(rsa.verify(key, signature, data) == Verified)
  }

  /** The conditions for a True verdict, stated on the primitives: an
      object whose `signature` is non-empty valid hex, a key that loads, and
      the oracle's acceptance of that signature over the canonical bytes of
      the claims without `signature`. */
  predicate SignatureAccepted(rsa: Rsa, payload: Json.Value, pem: Bytes) {
    payload.Object? &&
    var h := Json.Get(payload.members, SIGNATURE_KEY);
    h.Some? && h.value != "" && FromHex(h.value).Some? && rsa.loadPem(pem).Returned? &&
    rsa.verify(rsa.loadPem(pem).value, FromHex(h.value).value,
               CanonicalBytes(SignedData(payload.members))) == Verified
  }

  /** `verify_signature` returns True exactly when those conditions hold. */
  lemma VerifyIffAccepted(rsa: Rsa, payload: Json.Value, pem: Bytes)
    ensures VerifySignature(rsa, payload, pem) == Returned(true) <==> SignatureAccepted(rsa, payload, pem)
  {
  }

  /** No signature, or an empty one: rejected, whatever the key and the oracle. */
  lemma UnsignedRejected(rsa: Rsa, d: Json.Dict, pem: Bytes)
    requires Json.Get(d, SIGNATURE_KEY) in {None, Some("")}
    ensures VerifySignature(rsa, Json.Object(d), pem) == Returned(false)
  {
  }

  /** A signature that is not hex: rejected, whatever the key and the oracle. */
  lemma BadHexRejected(rsa: Rsa, d: Json.Dict, pem: Bytes, h: string)
    requires Json.Get(d, SIGNATURE_KEY) == Some(h) && FromHex(h).None?
    ensures VerifySignature(rsa, Json.Object(d), pem) == Returned(false)
  {
  }

  /** Once the hex decodes, the verdict is the oracle's on the canonical bytes
      of the claims without `signature`; rejection and every exception of
      `verify` come back as False, never as a raise. Only a key that does
      not load raises, since that call sits outside the try block. */
  lemma VerdictIsOracle(rsa: Rsa, d: Json.Dict, pem: Bytes, h: string, signature: Bytes)
    requires Json.Get(d, SIGNATURE_KEY) == Some(h) && h != "" && FromHex(h) == Some(signature)
    ensures rsa.loadPem(pem).Raised? ==>
      VerifySignature(rsa, Json.Object(d), pem) == Raised(rsa.loadPem(pem).error)
    ensures rsa.loadPem(pem).Returned? ==>
      VerifySignature(rsa, Json.Object(d), pem)
        == Returned(rsa.verify(rsa.loadPem(pem).value, signature, CanonicalBytes(SignedData(d))) == Verified)
  {
  }

  /** A payload that is not a JSON object makes `payload.get` raise. */
  lemma NonObjectRaises(rsa: Rsa, t: string, pem: Bytes)
    ensures VerifySignature(rsa, Json.NonObject(t), pem) == Raised(NoGetMessage(t))
  {
  }

  /** The signed bytes depend only on the claims' key-to-value mapping, not
      on the order in which the JSON listed them. */
  lemma CanonicalOrderIndependent(d1: Json.Dict, d2: Json.Dict)
    requires Json.UniqueKeys(d1) && Json.UniqueKeys(d2) && Json.ToMap(d1) == Json.ToMap(d2)
    ensures CanonicalBytes(d1) == CanonicalBytes(d2)
  {
    Json.SortByKeyDependsOnlyOnMap(d1, d2);
  }

  /** For real dicts, the verdict depends only on the key-to-value mapping:
      the JSON text's key order cannot change it. */
  lemma VerdictDependsOnlyOnMap(rsa: Rsa, d1: Json.Dict, d2: Json.Dict, pem: Bytes)
    requires Json.UniqueKeys(d1) && Json.UniqueKeys(d2) && Json.ToMap(d1) == Json.ToMap(d2)
    ensures VerifySignature(rsa, Json.Object(d1), pem) == VerifySignature(rsa, Json.Object(d2), pem)
  {
    SameClaimsSameInputs(d1, d2);
  }

  /** Dicts with the same mapping give `verify_signature` the same signature
      field and the same signed bytes. */
  lemma SameClaimsSameInputs(d1: Json.Dict, d2: Json.Dict)
    requires Json.UniqueKeys(d1) && Json.UniqueKeys(d2) && Json.ToMap(d1) == Json.ToMap(d2)
    ensures Json.Get(d1, SIGNATURE_KEY) == Json.Get(d2, SIGNATURE_KEY)
    ensures CanonicalBytes(SignedData(d1)) == CanonicalBytes(SignedData(d2))
  {
    var s1, s2 := SignedData(d1), SignedData(d2);
    Json.SameMapSameGet(d1, d2);
    forall k ensures Json.Get(s1, k) == Json.Get(s2, k) {
      if k == SIGNATURE_KEY {
        assert k !in Json.Keys(s1) && k !in Json.Keys(s2);
      }
    }
    Json.SameGetSameMap(s1, s2);
    CanonicalOrderIndependent(s1, s2);
  }

  /** The issuer's side: sign `json.dumps(payload, sort_keys=True)` and store
      the hex of the signature under `signature`. */
  function SignPayload(d: Json.Dict, sign: Bytes -> Bytes): (r: Json.Dict)
    ensures Json.Get(r, SIGNATURE_KEY) == Some(Hex(sign(CanonicalBytes(d))))
    ensures forall k :: k != SIGNATURE_KEY ==> Json.Get(r, k) == Json.Get(d, k)
  {
    var h := Hex(sign(CanonicalBytes(d)));
    assert Json.Get(Json.Set(d, SIGNATURE_KEY, h), SIGNATURE_KEY) == Some(h) by {
      Json.SetGet(d, SIGNATURE_KEY, h, SIGNATURE_KEY);
    }
    assert forall k :: k != SIGNATURE_KEY ==> Json.Get(Json.Set(d, SIGNATURE_KEY, h), k) == Json.Get(d, k) by {
      forall k {
        Json.SetGet(d, SIGNATURE_KEY, h, k);
      }
    }
    Json.Set(d, SIGNATURE_KEY, h)
  }

  /** Stripping `signature` from an issued license gives back exactly the
      claims the issuer signed. */
  lemma IssuerRoundTrip(d: Json.Dict, sign: Bytes -> Bytes)
    requires SIGNATURE_KEY !in Json.Keys(d)
    ensures SignedData(SignPayload(d, sign)) == d
    ensures CanonicalBytes(SignedData(SignPayload(d, sign))) == CanonicalBytes(d)
  {
    Json.WithoutAfterSet(d, SIGNATURE_KEY, Hex(sign(CanonicalBytes(d))));
  }

  /** An issued license is judged by the oracle on the very bytes and the
      very signature the issuer produced. */
  lemma IssuedLicenseVerdict(rsa: Rsa, d: Json.Dict, sign: Bytes -> Bytes, pem: Bytes, key: PublicKey)
    requires SIGNATURE_KEY !in Json.Keys(d)
    requires |sign(CanonicalBytes(d))| > 0
    requires rsa.loadPem(pem) == Returned(key)
    ensures VerifySignature(rsa, Json.Object(SignPayload(d, sign)), pem)
      == Returned(rsa.verify(key, sign(CanonicalBytes(d)), CanonicalBytes(d)) == Verified)
  {
    var signature := sign(CanonicalBytes(d));
    var signed := SignPayload(d, sign);
    FromHexOfHex(signature);
    IssuerRoundTrip(d, sign);
    Json.SetGet(d, SIGNATURE_KEY, Hex(signature), SIGNATURE_KEY);
  }
}
