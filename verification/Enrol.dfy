/** Enrolment: a credential on one device, and the keyfile that leads back to it. */
module Enrol {
  import opened Basics
  import opened Console
  import opened Invocation
  import opened CborStore
  import opened KeyfileFormat
  import opened KeyfileCodec
  import opened Cryptography
  import opened Authenticator
  import opened Sealing

  const RPID_ENCODING_TABLE_SIZE := 32
  const SALT_SIZE_BYTES := 64

  const RPID_ENCODING_TABLE: seq<byte> := Ascii("abcdefghijklmnopqrstuvwxyz234567")
  const RELYING_PARTY_SUFFIX: CStr := Ascii(".v1.fido2-hmac-secret.localhost")

  /** A result of `randombytes_uniform(RPID_ENCODING_TABLE_SIZE)`. */
  type Draw = d: nat | d < RPID_ENCODING_TABLE_SIZE

  /** Everything enrolment draws at random. */
  datatype Randomness = Randomness(rpid: seq<Draw>, salt: Blob, kdfSalt: Blob, nonce: Blob)

  predicate Sized(random: Randomness) {
    && |random.rpid| == RELYING_PARTY_ID_SIZE && |random.salt| == SALT_SIZE_BYTES
    && |random.kdfSalt| == SALT_BYTES && |random.nonce| == NONCE_BYTES
  }

  // ---------------------------------------------------------------- relying party IDs

  function RelyingPartyId(draws: seq<Draw>): (id: CStr)
    ensures |id| == |draws| + 31
  {
    var subdomain := seq(|draws|, i requires 0 <= i < |draws| => RPID_ENCODING_TABLE[draws[i]]);
    assert forall i :: 0 <= i < |draws| ==> subdomain[i] == RPID_ENCODING_TABLE[draws[i]] != 0;
    subdomain + RELYING_PARTY_SUFFIX
  }

  /** The place of a character in the base32 alphabet of RFC 4648 section 6, in lower case. */
  function Base32Value(c: byte): Option<nat> {
    if 'a' as int <= c as int <= 'z' as int then Some(c as int - 'a' as int)
    else if '2' as int <= c as int <= '7' as int then Some(c as int - '2' as int + 26)
    else None
  }

  lemma TableIsBase32(d: Draw)
    ensures Base32Value(RPID_ENCODING_TABLE[d]) == Some(d)
  {
    assert RPID_ENCODING_TABLE[d] as int == "abcdefghijklmnopqrstuvwxyz234567"[d] as int;
  }

  /** A generated ID is base32 and the suffix, without a NUL, and tells its draws apart. */
  lemma RelyingPartyIdIsInjective(draws: seq<Draw>, other: seq<Draw>)
    requires |draws| == |other| && RelyingPartyId(draws) == RelyingPartyId(other)
    ensures draws == other
  {
    forall i | 0 <= i < |draws|
      ensures draws[i] == other[i]
    {
      TableIsBase32(draws[i]);
      TableIsBase32(other[i]);
      assert RelyingPartyId(draws)[i] == RPID_ENCODING_TABLE[draws[i]];
      assert RelyingPartyId(other)[i] == RPID_ENCODING_TABLE[other[i]];
    }
  }

  lemma RelyingPartyIdCharacters(draws: seq<Draw>, i: nat)
    requires i < |draws|
    ensures Base32Value(RelyingPartyId(draws)[i]) == Some(draws[i])
    ensures RelyingPartyId(draws)[|draws|..] == Ascii(".v1.fido2-hmac-secret.localhost")
  {
    TableIsBase32(draws[i]);
  }

  /** Fills the ID's buffer and appends the suffix the way `strncat` does. */
  method GenerateRelyingPartyId(draws: seq<Draw>) returns (id: CStr)
    requires |draws| == RELYING_PARTY_ID_SIZE
    ensures id == RelyingPartyId(draws)
  {
    var n := RELYING_PARTY_ID_SIZE + |RELYING_PARTY_SUFFIX|;
    var buffer := new byte[n + 1];
    for i := 0 to RELYING_PARTY_ID_SIZE
      invariant forall j :: 0 <= j < i ==> buffer[j] == RPID_ENCODING_TABLE[draws[j]]
    {
      buffer[i] := RPID_ENCODING_TABLE[draws[i]];
    }
    buffer[RELYING_PARTY_ID_SIZE] := 0;
    for i := 0 to |RELYING_PARTY_SUFFIX|
      invariant forall j :: 0 <= j < RELYING_PARTY_ID_SIZE ==> buffer[j] == RPID_ENCODING_TABLE[draws[j]]
      invariant forall j :: 0 <= j < i ==> buffer[RELYING_PARTY_ID_SIZE + j] == RELYING_PARTY_SUFFIX[j]
    {
      buffer[RELYING_PARTY_ID_SIZE + i] := RELYING_PARTY_SUFFIX[i];
    }
    buffer[n] := 0;
    id := CString(buffer[..]);
    assert buffer[..n] == RelyingPartyId(draws);
    CStringUnique(buffer[..], RelyingPartyId(draws));
  }

  // ---------------------------------------------------------------- the enrolment

  datatype Written = Written(file: Cleartext, rest: seq<byte>)

  function EnrolPin(d: Device, f: Fields, terminal: Terminal, pending: seq<byte>): Outcome<(Option<CStr>, seq<byte>)> {
    if !d.hasPin then Done((None, pending))
    else match PinFrom(f.authenticatorPin, terminal, pending)
      case Exit(code) => Exit(code)
      case Undefined => Undefined
      case Done(Prompted(pin, rest)) => if pin == [] then Exit(EXIT_BAD_PIN) else Done((Some(pin), rest))
  }

  function FirstRequest(random: Randomness): Request {
    Request(RelyingPartyId(random.rpid), ClientDataHash(), [], random.salt)
  }

  /** `enrol_device`: the record whose bytes become the keyfile. */
  function Enrolled(crypto: Crypto, f: Fields, d: Device, random: Randomness, terminal: Terminal, pending: seq<byte>)
    : Outcome<Written>
    requires Sized(random) && f.passphrase.Some?
  {
    if !Reachable(d) || HMAC_SECRET !in d.extensions then Exit(EXIT_AUTHENTICATOR_ERROR)
    else match EnrolPin(d, f, terminal, pending)
      case Exit(code) => Exit(code)
      case Undefined => Undefined
      case Done((pin, rest)) =>
        match Created(d, RelyingPartyId(random.rpid), pin)
        case Exit(code) => Exit(code)
        case Undefined => Undefined
        case Done(id) =>
          match NewKeySpec(f.passphrase.value, f.kdfHardness, random.kdfSalt)
          case Exit(code) => Exit(code)
          case Undefined => Undefined
          case Done(spec) =>
            match Sealed(crypto, FirstRequest(random).(credentialId := id), spec, random.nonce)
            case Exit(code) => Exit(code)
            case Undefined => Undefined
            case Done(r) => Done(Written(r.(deviceAaguid := d.aaguid), rest))
  }

  method EnrolDevice(store: Store, crypto: Crypto, invocation: InvocationState, d: Device, random: Randomness,
                     stdin: Stdin)
    returns (o: Outcome<seq<byte>>)
    requires Sized(random) && invocation.passphrase.Some? && store.Valid()
    modifies store, stdin
    ensures match Enrolled(crypto, invocation.Value(), d, random, stdin.terminal, old(stdin.pending))
      case Done(Written(r, rest)) =>
        o == Done(WriteClear(r)) && stdin.pending == rest && store.cells == old(store.cells)
      case Exit(code) => o == Exit(code)
      case Undefined => o.Undefined?
  {
    hide RelyingPartyId, ClientDataHash, PinFrom, Created, NewKeySpec, Sealed, WriteClear;
    if !Reachable(d) {
      return Exit(EXIT_AUTHENTICATOR_ERROR);
    }
    var supported := DeviceSupportsHmacSecret(d.extensions);
    if !supported {
      return Exit(EXIT_AUTHENTICATOR_ERROR);
    }
    var params := new Parameters(SALT_SIZE_BYTES);
    forall i | 0 <= i < SALT_SIZE_BYTES {
      params.salt[i] := random.salt[i];
    }
    assert params.salt[..] == random.salt;
    params.relyingPartyId := GenerateRelyingPartyId(random.rpid);
    if d.hasPin {
      var pin := ObtainPin(invocation.authenticatorPin, stdin);
      match pin {
        case Exit(code) => return Exit(code);
        case Undefined => return Undefined;
        case Done(_) =>
      }
      params.authenticatorPin := Some(pin.value);
      if |pin.value| == 0 {
        return Exit(EXIT_BAD_PIN);
      }
    }
    assert params.Value() == FirstRequest(random);
    var created := CreateCredential(d, params);
    if created.Exit? {
      return Exit(created.code);
    }
    var spec := MakeNewKeySpec(invocation, random.kdfSalt);
    if spec.Exit? {
      return Exit(spec.code);
    }
    var built := BuildCleartext(store, crypto, params, spec.value, random.nonce);
    if built.Exit? {
      return Exit(built.code);
    }
    var clear := built.value;
    clear.deviceAaguid := d.aaguid;
    var data := WriteCleartext(store, clear);
    return Done(data);
  }
}
