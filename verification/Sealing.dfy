/** The encrypted layer: sealing enrolment parameters into a record and recovering them from it. */
module Sealing {
  import opened Basics
  import opened CborStore
  import opened KeyfileFormat
  import opened KeyfileCodec
  import opened Cryptography
  import opened Authenticator
  import Cbor

  // ---------------------------------------------------------------- exclusive or

  /** Exclusive or of the lowest `n` bits. */
  function XorBits(a: nat, b: nat, n: nat): nat {
    if n == 0 then 0 else (if a % 2 == b % 2 then 0 else 1) + 2 * XorBits(a / 2, b / 2, n - 1)
  }

  function Pow2(n: nat): nat { if n == 0 then 1 else 2 * Pow2(n - 1) }

  lemma {:induction false} XorBitsFit(a: nat, b: nat, n: nat)
    ensures XorBits(a, b, n) < Pow2(n)
  {
    if n > 0 {
      XorBitsFit(a / 2, b / 2, n - 1);
    }
  }

  lemma Halves(bit: nat, rest: nat)
    requires bit < 2
    ensures (bit + 2 * rest) % 2 == bit && (bit + 2 * rest) / 2 == rest
  {
  }

  lemma {:induction false} XorBitsTwice(a: nat, b: nat, n: nat)
    requires a < Pow2(n)
    ensures XorBits(XorBits(a, b, n), b, n) == a
  {
    if n > 0 {
      Halves(if a % 2 == b % 2 then 0 else 1, XorBits(a / 2, b / 2, n - 1));
      XorBitsTwice(a / 2, b / 2, n - 1);
    }
  }

  lemma ByteBits()
    ensures Pow2(8) == 256
  {
    assert Pow2(4) == 16;
  }

  function Xor(a: byte, b: byte): byte {
    XorBitsFit(a as nat, b as nat, 8);
    ByteBits();
    XorBits(a as nat, b as nat, 8) as byte
  }

  lemma XorTwice(a: byte, b: byte)
    ensures Xor(Xor(a, b), b) == a
  {
    ByteBits();
    XorBitsTwice(a as nat, b as nat, 8);
    hide XorBits, Pow2;
  }

  function Bit(n: nat, k: nat): nat {
    if k == 0 then n % 2 else Bit(n / 2, k - 1)
  }

  lemma {:induction false} XorBitAt(a: nat, b: nat, n: nat, k: nat)
    requires k < n
    ensures Bit(XorBits(a, b, n), k) == 1 <==> Bit(a, k) != Bit(b, k)
  {
    Halves(if a % 2 == b % 2 then 0 else 1, XorBits(a / 2, b / 2, n - 1));
    if k > 0 {
      XorBitAt(a / 2, b / 2, n - 1, k - 1);
    }
  }

  /** A bit of the result is set exactly when the operands differ there. */
  lemma XorDiffers(a: byte, b: byte, k: nat)
    requires k < 8
    ensures Bit(Xor(a, b) as nat, k) == 1 <==> Bit(a as nat, k) != Bit(b as nat, k)
  {
    XorBitAt(a as nat, b as nat, 8, k);
    hide XorBits, Bit;
  }

  function XorBytes(a: seq<byte>, mask: seq<byte>): (r: seq<byte>)
    requires |mask| == |a|
    ensures |r| == |a| && forall i :: 0 <= i < |a| ==> r[i] == Xor(a[i], mask[i])
  {
    seq(|a|, i requires 0 <= i < |a| => Xor(a[i], mask[i]))
  }

  /** Mixing the same data in again takes it out. */
  lemma XorBytesTwice(a: seq<byte>, mask: seq<byte>)
    requires |mask| == |a|
    ensures XorBytes(XorBytes(a, mask), mask) == a
  {
    hide Xor;
    forall i | 0 <= i < |a|
      ensures Xor(Xor(a[i], mask[i]), mask[i]) == a[i]
    {
      XorTwice(a[i], mask[i]);
    }
  }

  method XorInto(salt: array<byte>, mask: seq<byte>)
    requires |mask| == salt.Length
    modifies salt
    ensures salt[..] == XorBytes(old(salt[..]), mask)
  {
    hide Xor;
    for i := 0 to salt.Length
      invariant forall j :: 0 <= j < i ==> salt[j] == Xor(old(salt[j]), mask[j])
      invariant forall j :: i <= j < salt.Length ==> salt[j] == old(salt[j])
    {
      salt[i] := Xor(salt[i], mask[i]);
    }
  }

  // ---------------------------------------------------------------- recovering

  /** The salt sent to the device: the stored one, or that combined with the hash of the mixin. */
  function MixedSalt(crypto: Crypto, salt: Blob, mixin: Option<CStr>): Outcome<seq<byte>>
    requires Lawful(crypto)
  {
    match mixin
    case None => Done(salt)
    case Some(data) =>
      match crypto.genericHash(|salt|, data)
      case None => Exit(EXIT_CRYPTOGRAPHY_ERROR)
      case Some(hash) => Done(XorBytes(salt, hash))
  }

  /** `build_authenticator_parameters_from_deserialized_cleartext_and_key_and_mixin`.  A box shorter
      than its MAC makes the size wrap around and the allocation fail.  The first 24 bytes of the
      nonce are read whatever its stored size, and a record without a relying party ID makes the
      code copy a NULL string. */
  function Unsealed(crypto: Crypto, r: Cleartext, key: Blob, mixin: Option<CStr>): Outcome<Request>
    requires Lawful(crypto)
  {
    if |r.encryptedData| < MAC_BYTES then Exit(EXIT_OUT_OF_MEMORY)
    else if |r.nonce| < NONCE_BYTES then Undefined
    else match crypto.open(r.encryptedData, r.nonce[..NONCE_BYTES], key)
      case None => Exit(EXIT_BAD_PASSPHRASE)
      case Some(plain) =>
        match LoadSecrets(plain)
        case Exit(code) => Exit(code)
        case Undefined => Undefined
        case Done(Read(s, _)) =>
          if s.relyingPartyId.None? then Undefined
          else match MixedSalt(crypto, s.salt, mixin)
            case Exit(code) => Exit(code)
            case Undefined => Undefined
            case Done(salt) =>
              Done(Request(CString(s.relyingPartyId.value), ClientDataHash(), s.credentialId, salt))
  }

  method BuildParameters(store: Store, crypto: Crypto, clear: ClearRecord, key: Blob, mixin: Option<CStr>)
    returns (o: Outcome<Parameters>)
    requires Lawful(crypto) && store.Valid()
    modifies store
    ensures store.next >= old(store.next)
    ensures match Unsealed(crypto, clear.Value(), key, mixin)
      case Done(request) =>
        && o.Done? && fresh(o.value) && fresh(o.value.salt) && fresh(o.value.clientDataHash)
        && o.value.Value() == request && o.value.authenticatorPin.None? && store.cells == old(store.cells)
      case Exit(code) => o == Exit(code)
      case Undefined => o.Undefined?
  {
    hide LoadSecrets, ClientDataHash, Below, CString;
    if |clear.encryptedData| < MAC_BYTES {
      return Exit(EXIT_OUT_OF_MEMORY);
    }
    if |clear.nonce| < NONCE_BYTES {
      return Undefined;
    }
    var decrypted := crypto.open(clear.encryptedData, clear.nonce[..NONCE_BYTES], key);
    if decrypted.None? {
      return Exit(EXIT_BAD_PASSPHRASE);
    }
    var loaded := LoadSecretsFromBytes(store, decrypted.value);
    match loaded {
      case Exit(code) => return Exit(code);
      case Undefined => return Undefined;
      case Done(_) =>
    }
    var secrets := loaded.value;
    var params := new Parameters(|secrets.salt|);
    params.credentialId := secrets.credentialId;
    if secrets.relyingPartyId.None? {
      return Undefined;
    }
    params.relyingPartyId := CString(secrets.relyingPartyId.value);
    forall i | 0 <= i < |secrets.salt| {
      params.salt[i] := secrets.salt[i];
    }
    assert params.salt[..] == secrets.salt;
    if mixin.Some? {
      var hashed := crypto.genericHash(params.salt.Length, mixin.value);
      if hashed.None? {
        return Exit(EXIT_CRYPTOGRAPHY_ERROR);
      }
      XorInto(params.salt, hashed.value);
    }
    return Done(params);
  }

  // ---------------------------------------------------------------- sealing

  /** `build_deserialized_cleartext_from_authenticator_parameters_and_key_spec`; the AAGUID is the
      caller's to fill in. */
  function Sealed(crypto: Crypto, request: Request, spec: KeySpec, nonce: Blob): Outcome<Cleartext>
    requires |nonce| == NONCE_BYTES
    requires |request.salt| < TWO_TO_64 && |request.relyingPartyId| < TWO_TO_64
  {
    var secrets := Secrets(SERIALIZATION_VERSION, Some(request.relyingPartyId), request.credentialId, request.salt);
    match Derived(crypto, spec)
    case Exit(code) => Exit(code)
    case Undefined => Undefined
    case Done(key) =>
      match crypto.seal(WriteSecrets(secrets), nonce, key)
      case None => Exit(EXIT_CRYPTOGRAPHY_ERROR)
      case Some(box) =>
        Done(Cleartext(SERIALIZATION_VERSION, [], spec.kdfSalt, spec.opslimit, spec.memlimit, spec.algorithm,
                       nonce, box))
  }

  method ClearPart(spec: KeySpecRecord, nonce: Blob) returns (clear: ClearRecord)
    ensures fresh(clear)
    ensures clear.Value() == Cleartext(SERIALIZATION_VERSION, [], spec.kdfSalt, spec.opslimit, spec.memlimit,
                                       spec.algorithm, nonce, [])
  {
    clear := new ClearRecord();
    clear.version := SERIALIZATION_VERSION;
    clear.deviceAaguid := [];
    clear.opslimit := spec.opslimit;
    clear.memlimit := spec.memlimit;
    clear.algorithm := spec.algorithm;
    clear.kdfSalt := spec.kdfSalt;
    clear.nonce := nonce;
    clear.encryptedData := [];
  }

  method SecretPart(version: byte, params: Parameters) returns (secrets: SecretRecord)
    requires params.salt.Length < TWO_TO_64 && |params.relyingPartyId| < TWO_TO_64
    ensures fresh(secrets)
    ensures secrets.Value() == Secrets(version, Some(params.relyingPartyId), params.credentialId, params.salt[..])
  {
    secrets := new SecretRecord();
    secrets.version := version;
    secrets.relyingPartyId := Some(params.relyingPartyId);
    secrets.credentialId := params.credentialId;
    secrets.salt := params.salt[..];
  }

  method BuildCleartext(store: Store, crypto: Crypto, params: Parameters, spec: KeySpecRecord, nonce: Blob)
    returns (o: Outcome<ClearRecord>)
    requires store.Valid() && |nonce| == NONCE_BYTES
    requires params.salt.Length < TWO_TO_64 && |params.relyingPartyId| < TWO_TO_64
    modifies store
    ensures store.next >= old(store.next)
    ensures match Sealed(crypto, params.Value(), spec.Value(), nonce)
      case Done(r) => o.Done? && fresh(o.value) && o.value.Value() == r && store.cells == old(store.cells)
      case Exit(code) => o == Exit(code)
      case Undefined => false
  {
    hide Planted, Released, Cbor.PrintArray, Below, SecretItems, Derived, Cbor.ValidItem;
    var clear := ClearPart(spec, nonce);
    var secrets := SecretPart(clear.version, params);
    ghost var items := SecretItems(secrets.Value());
    var root := SerializeSecretsV1(store, secrets);
    var plain := store.Serialize(root, old(store.cells), |items|, items);
    var key := DeriveKey(crypto, spec);
    if key.Exit? {
      return Exit(key.code);
    }
    var box := crypto.seal(plain, clear.nonce, key.value);
    if box.None? {
      return Exit(EXIT_CRYPTOGRAPHY_ERROR);
    }
    clear.encryptedData := box.value;
    ReleasePlanted(old(store.cells), root, |items|, items);
    store.Decref(root);
    return Done(clear);
  }

  /** Opening what was sealed, with the key the record leads back to, gives the parameters again,
      their salt mixed as asked, whatever AAGUID the record was given. */
  lemma SealThenUnseal(crypto: Crypto, request: Request, spec: KeySpec, nonce: Blob, aaguid: Blob, mixin: Option<CStr>)
    requires Lawful(crypto) && |nonce| == NONCE_BYTES
    requires |request.salt| < TWO_TO_64 && 0 < |request.relyingPartyId| < TWO_TO_64
    requires request.clientDataHash == ClientDataHash()
    requires Sealed(crypto, request, spec, nonce).Done?
    ensures var r := Sealed(crypto, request, spec, nonce).value.(deviceAaguid := aaguid);
      && SpecFrom(spec.passphrase, r) == spec
      && Derived(crypto, spec).Done?
      && Unsealed(crypto, r, Derived(crypto, spec).value, mixin)
         == (match MixedSalt(crypto, request.salt, mixin)
             case Exit(code) => Exit(code)
             case Undefined => Undefined
             case Done(salt) => Done(request.(salt := salt)))
  {
    hide LoadSecrets, WriteSecrets, ClientDataHash, MixedSalt;
    var secrets := Secrets(SERIALIZATION_VERSION, Some(request.relyingPartyId), request.credentialId, request.salt);
    SecretsRoundTrip(secrets, []);
    assert nonce[..NONCE_BYTES] == nonce;
    assert WriteSecrets(secrets) + [] == WriteSecrets(secrets);
    CStringUnique(request.relyingPartyId, request.relyingPartyId);
  }
}
