/** Devices, and asking one of them for a credential or a secret. */
module Authenticator {
  import opened Basics

  /** The libfido2 results the program tells apart. */
  datatype Fido =
    | FidoOk
    | InvalidCredential
    | UserActionPending
    | NoCredentials
    | ActionTimeout
    | PinInvalid
    | OtherError(code: int)

  predicate Retryable(r: Fido) {
    r.InvalidCredential? || r.UserActionPending? || r.NoCredentials? || r.ActionTimeout? || r.PinInvalid?
  }

  /** What an assertion is asked for. */
  datatype Request = Request(relyingPartyId: CStr, clientDataHash: seq<byte>, credentialId: Blob, salt: seq<byte>)

  /** `free_parameters` zeroes 32 bytes of the relying party ID whatever its length, which stays
      inside the string's memory, its NUL included, exactly for these. */
  predicate Freeable(r: Request) { |r.relyingPartyId| + 1 >= RELYING_PARTY_ID_SIZE }

  datatype Reply = Reply(result: Fido, bytes: Blob)

  /** A connected device, by how it behaves: the `accepts` functions say that every `fido_*_set_*`
      call succeeds, and the other two are its answers with the PIN that is passed along.  A
      credential is made for a relying party ID and a client data hash. */
  datatype Device = Device(
    opens: bool,
    isFido2: bool,
    infoReadable: bool,
    aaguid: Blob,
    extensions: seq<CStr>,
    hasPin: bool,
    acceptsCredential: (CStr, seq<byte>) -> bool,
    makeCredential: (CStr, seq<byte>, Option<CStr>) -> Reply,
    accepts: Request -> bool,
    getAssertion: (Request, Option<CStr>) -> Reply)

  const HMAC_SECRET: CStr := Ascii("hmac-secret")

  const CLIENT_DATA_HASH_SIZE_BYTES := 32
  const RELYING_PARTY_ID_SIZE := 32

  function ClientDataHash(): (h: seq<byte>)
    ensures |h| == CLIENT_DATA_HASH_SIZE_BYTES
  {
    seq(CLIENT_DATA_HASH_SIZE_BYTES, i => 0x41)
  }

  method DeviceSupportsHmacSecret(extensions: seq<CStr>) returns (supported: bool)
    ensures supported <==> HMAC_SECRET in extensions
  {
    for i := 0 to |extensions|
      invariant HMAC_SECRET !in extensions[..i]
    {
      if extensions[i] == HMAC_SECRET {
        return true;
      }
    }
    return false;
  }

  method DeviceAaguidMatches(stored: Blob, aaguid: Blob) returns (matches: bool)
    ensures matches <==> stored == [] || aaguid == stored
  {
    if |stored| == 0 {
      return true;
    }
    if |aaguid| != |stored| {
      return false;
    }
    for i := 0 to |stored|
      invariant stored[..i] == aaguid[..i]
    {
      if stored[i] != aaguid[i] {
        return false;
      }
    }
    assert stored[..|stored|] == stored && aaguid[..|stored|] == aaguid;
    return true;
  }

  /** The heap struct `authenticator_parameters_t`, its constant fields left out. */
  class Parameters {
    var relyingPartyId: CStr
    var clientDataHash: array<byte>
    var credentialId: Blob
    var salt: array<byte>
    var authenticatorPin: Option<CStr>

    /** `allocate_parameters_except_rpid`; the credential ID is copied in by the caller. */
    constructor (saltSize: nat)
      ensures fresh(clientDataHash) && fresh(salt) && salt != clientDataHash
      ensures salt.Length == saltSize && clientDataHash[..] == ClientDataHash()
      ensures relyingPartyId == [] && credentialId == [] && authenticatorPin.None?
    {
      relyingPartyId, credentialId, authenticatorPin := [], [], None;
      salt := new byte[saltSize];
      clientDataHash := new byte[CLIENT_DATA_HASH_SIZE_BYTES];
      new;
      for i := 0 to CLIENT_DATA_HASH_SIZE_BYTES
        invariant forall j :: 0 <= j < i ==> clientDataHash[j] == 0x41
        modifies clientDataHash
      {
        clientDataHash[i] := 0x41;
      }
    }

    ghost function Value(): Request
      reads this, clientDataHash, salt
    {
      Request(relyingPartyId, clientDataHash[..], credentialId, salt[..])
    }
  }

  /** `get_device` and `get_device_info`, which end the process unless all three steps succeed. */
  predicate Reachable(d: Device) { d.opens && d.isFido2 && d.infoReadable }

  /** `create_credential` */
  function Created(d: Device, relyingPartyId: CStr, pin: Option<CStr>): (o: Outcome<Blob>)
    ensures o.Done? ==>
      o.value != [] && d.makeCredential(relyingPartyId, ClientDataHash(), pin) == Reply(FidoOk, o.value)
    ensures o.Exit? ==> o.code == 65 || o.code == 37
    ensures !o.Undefined?
  {
    if !d.acceptsCredential(relyingPartyId, ClientDataHash()) then Exit(EXIT_AUTHENTICATOR_ERROR)
    else
      var reply := d.makeCredential(relyingPartyId, ClientDataHash(), pin);
      if reply.result == PinInvalid then Exit(EXIT_BAD_PIN)
      else if reply.result != FidoOk || reply.bytes == [] then Exit(EXIT_AUTHENTICATOR_ERROR)
      else Done(reply.bytes)
  }

  method CreateCredential(d: Device, params: Parameters) returns (o: Outcome<()>)
    requires params.clientDataHash[..] == ClientDataHash()
    modifies params`credentialId
    ensures match Created(d, params.relyingPartyId, params.authenticatorPin)
      case Done(id) => o == Done(()) && params.credentialId == id
      case Exit(code) => o == Exit(code)
      case Undefined => false
  {
    if !d.acceptsCredential(params.relyingPartyId, params.clientDataHash[..]) {
      return Exit(EXIT_AUTHENTICATOR_ERROR);
    }
    var reply := d.makeCredential(params.relyingPartyId, params.clientDataHash[..], params.authenticatorPin);
    if reply.result != FidoOk {
      if reply.result == PinInvalid {
        return Exit(EXIT_BAD_PIN);
      }
      return Exit(EXIT_AUTHENTICATOR_ERROR);
    }
    if |reply.bytes| < 1 {
      return Exit(EXIT_AUTHENTICATOR_ERROR);
    }
    params.credentialId := reply.bytes;
    return Done(());
  }
}
