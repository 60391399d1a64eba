/** What enrolment and generation promise together. */
module EndToEnd {
  import opened Basics
  import opened Console
  import opened Files
  import opened Invocation
  import opened Cbor
  import opened KeyfileFormat
  import opened KeyfileSize
  import opened Cryptography
  import opened Authenticator
  import opened Sealing
  import opened Enrol
  import opened Scan
  import opened ScanTheorems
  import opened Generate
  import Hex

  /** An enrolment that ran to its end: who ran it, on what device, with which draws. */
  datatype Enrolment = Enrolment(
    crypto: Crypto,
    fields: Fields,
    device: Device,
    random: Randomness,
    terminal: Terminal,
    pending: seq<byte>)
  {
    ghost predicate Completed() {
      && Lawful(crypto) && Sized(random) && fields.passphrase.Some?
      && Enrolled(crypto, fields, device, random, terminal, pending).Done?
    }

    ghost function Record(): Cleartext
      requires Completed()
    {
      Enrolled(crypto, fields, device, random, terminal, pending).value.file
    }

    ghost function Keyfile(): seq<byte>
      requires Completed()
    {
      WriteClear(Record())
    }

    ghost function CredentialId(): Blob
      requires Completed()
    {
      var (pin, _) := EnrolPin(device, fields, terminal, pending).value;
      Created(device, RelyingPartyId(random.rpid), pin).value
    }

    /** What the device was enrolled with. */
    ghost function Request(): Request
      requires Completed()
    {
      FirstRequest(random).(credentialId := CredentialId())
    }
  }

  lemma CompletedEnrolment(e: Enrolment)
    requires e.Completed()
    ensures NewKeySpec(e.fields.passphrase.value, e.fields.kdfHardness, e.random.kdfSalt).Done?
    ensures var spec := NewKeySpec(e.fields.passphrase.value, e.fields.kdfHardness, e.random.kdfSalt).value;
      && Sealed(e.crypto, e.Request(), spec, e.random.nonce).Done?
      && e.Record() == Sealed(e.crypto, e.Request(), spec, e.random.nonce).value.(deviceAaguid := e.device.aaguid)
      && spec.passphrase == e.fields.passphrase.value
    ensures e.CredentialId() != [] && Reachable(e.device) && HMAC_SECRET in e.device.extensions
  {
    hide Sealed, RelyingPartyId, PinFrom;
  }

  /** Generation with the enrolment's passphrase, from the keyfile with anything after it, recovers
      the relying party ID, the credential ID and the salt, the salt mixed as asked. */
  lemma EnrolThenRecover(e: Enrolment, tail: seq<byte>, mixin: Option<CStr>)
    requires e.Completed()
    ensures FromKeyfile(e.crypto, e.Keyfile() + tail, e.fields.passphrase.value, mixin)
         == match MixedSalt(e.crypto, e.random.salt, mixin)
            case Exit(code) => Exit(code)
            case Undefined => Undefined
            case Done(salt) => Done(Recovery(e.device.aaguid, e.Request().(salt := salt)))
  {
    hide Enrolled, EnrolPin, Created, RelyingPartyId, ClientDataHash;
    hide LoadClear, WriteClear, Unsealed, Derived, MixedSalt;
    CompletedEnrolment(e);
    var spec := NewKeySpec(e.fields.passphrase.value, e.fields.kdfHardness, e.random.kdfSalt).value;
    SealThenUnseal(e.crypto, e.Request(), spec, e.random.nonce, e.device.aaguid, mixin);
    ClearRoundTrip(e.Record(), tail);
  }

  /** A mixin changes the recovered salt and nothing else: it is the stored salt combined byte by
      byte with the hash, and combining it with the same hash again restores the stored one. */
  lemma MixinXorsSalt(e: Enrolment, tail: seq<byte>, data: CStr)
    requires e.Completed() && e.crypto.genericHash(SALT_SIZE_BYTES, data).Some?
    ensures var plain := FromKeyfile(e.crypto, e.Keyfile() + tail, e.fields.passphrase.value, None);
            var mixed := FromKeyfile(e.crypto, e.Keyfile() + tail, e.fields.passphrase.value, Some(data));
            var hash := e.crypto.genericHash(SALT_SIZE_BYTES, data).value;
      && plain.Done? && mixed.Done?
      && mixed.value == plain.value.(request := plain.value.request.(salt := mixed.value.request.salt))
      && plain.value.request == e.Request()
      && |mixed.value.request.salt| == |hash| == SALT_SIZE_BYTES
      && (forall i :: 0 <= i < SALT_SIZE_BYTES ==>
            mixed.value.request.salt[i] == Xor(e.random.salt[i], hash[i]))
      && XorBytes(mixed.value.request.salt, hash) == e.random.salt
  {
    hide FromKeyfile, Enrolled, Xor, RelyingPartyId, ClientDataHash;
    EnrolThenRecover(e, tail, None);
    EnrolThenRecover(e, tail, Some(data));
    XorBytesTwice(e.random.salt, e.crypto.genericHash(SALT_SIZE_BYTES, data).value);
  }

  /** The AAGUID is stored whether or not the invocation asked to obfuscate it, so the documented
      rule holds of an enrolment exactly when the device's own AAGUID happens to follow it. */
  lemma ObfuscationIsNotConsulted(e: Enrolment)
    requires e.Completed()
    ensures e.Record().deviceAaguid == e.device.aaguid
    ensures (e.Record().deviceAaguid == [] <==> e.fields.obfuscateDeviceInfo)
       <==> (e.device.aaguid == [] <==> e.fields.obfuscateDeviceInfo)
    ensures forall b :: e.(fields := e.fields.(obfuscateDeviceInfo := b)).Completed()
                     && e.(fields := e.fields.(obfuscateDeviceInfo := b)).Record() == e.Record()
  {
    hide Sealed, RelyingPartyId, PinFrom, Created;
  }

  /** A scan with what was recovered from the enrolment's keyfile. */
  ghost predicate ScansFor(e: Enrolment, s: Session, tail: seq<byte>, mixin: Option<CStr>) {
    e.Completed()
    && FromKeyfile(e.crypto, e.Keyfile() + tail, e.fields.passphrase.value, mixin)
       == Done(Recovery(s.aaguid, s.request))
  }

  lemma ScannedRequest(e: Enrolment, s: Session, tail: seq<byte>, mixin: Option<CStr>)
    requires ScansFor(e, s, tail, mixin)
    ensures s.aaguid == e.device.aaguid && Matches(s, e.device)
    ensures s.request.relyingPartyId == RelyingPartyId(e.random.rpid)
    ensures s.request.credentialId == e.CredentialId() != []
    ensures |s.request.salt| == SALT_SIZE_BYTES
    ensures Freeable(s.request)
    ensures mixin.None? ==> s.request == e.Request()
  {
    hide FromKeyfile, RelyingPartyId;
    EnrolThenRecover(e, tail, mixin);
    CompletedEnrolment(e);
  }

  /** The PIN that reaches the `i`-th device. */
  function PinFor(s: Session, i: nat): Option<CStr>
    requires i < |s.devices|
  {
    if !s.devices[i].hasPin then PinAt(s, i)
    else match PinFrom(s.pin, s.terminal, PendingAt(s, i))
      case Done(Prompted(pin, _)) => Some(pin)
      case _ => None
  }

  lemma AnswerVerdict(s: Session, i: nat)
    requires i < |s.devices| && Reachable(s.devices[i]) && Matches(s, s.devices[i])
    requires HMAC_SECRET in s.devices[i].extensions
    requires s.devices[i].hasPin ==> PinFor(s, i).Some? && PinFor(s, i) != Some([])
    requires s.request.credentialId != [] && s.request.salt != [] && Freeable(s.request)
    requires s.devices[i].accepts(s.request)
    requires var reply := s.devices[i].getAssertion(s.request, PinFor(s, i));
      reply.result == FidoOk && reply.bytes != []
    ensures VerdictAt(s, i) == Answered(s.devices[i].getAssertion(s.request, PinFor(s, i)).bytes)
  {
    hide PinFrom, PinAt, PendingAt;
  }

  /** When every device before the enrolled one passes and it is given a PIN it answers to, the run
      returns 0 and prints one line, the hex digits of its HMAC over the recovered salt. */
  lemma EnrolledDevicePrints(e: Enrolment, s: Session, tail: seq<byte>, mixin: Option<CStr>, i: nat)
    requires ScansFor(e, s, tail, mixin)
    requires i < |s.devices| && s.devices[i] == e.device && AllPass(s, 0, i)
    requires e.device.hasPin ==> PinFor(s, i).Some? && PinFor(s, i) != Some([])
    requires e.device.accepts(s.request)
    requires var reply := e.device.getAssertion(s.request, PinFor(s, i)); reply.result == FidoOk && reply.bytes != []
    ensures ReturnCode(s) == Done(0)
    ensures forall before, after, pending, live :: RunOf(s, before, after, pending, live) ==>
      after == before + Hex.OfBytes(e.device.getAssertion(s.request, PinFor(s, i)).bytes) + "\n"
    ensures Hex.Decode(Hex.OfBytes(e.device.getAssertion(s.request, PinFor(s, i)).bytes))
         == Some(e.device.getAssertion(s.request, PinFor(s, i)).bytes)
  {
    hide FromKeyfile, Enrolled, RelyingPartyId, ClientDataHash, Hex.OfBytes, Hex.Decode;
    hide PinFor, PendingAt, KeptBefore, PinOwner, Freeable, VerdictAt;
    CompletedEnrolment(e);
    ScannedRequest(e, s, tail, mixin);
    var secret := e.device.getAssertion(s.request, PinFor(s, i)).bytes;
    AnswerVerdict(s, i);
    FirstMatch(s, 0);
    Hex.OfBytesReadsBack(secret);
  }

  // ---------------------------------------------------------------- bug exits

  /** Recovering from any bytes reaches a bug exit exactly when the record has a key salt of another
      size; nothing else in it can. */
  lemma BugExitExactly(crypto: Crypto, data: seq<byte>, passphrase: CStr, mixin: Option<CStr>)
    requires Lawful(crypto)
    ensures FromKeyfile(crypto, data, passphrase, mixin) == Exit(96) <==>
      LoadClear(data).Done? && |LoadClear(data).value.value.kdfSalt| != 16
  {
    hide LoadClear, LoadSecrets;
  }

  // ---------------------------------------------------------------- undefined behaviour

  /** Bytes whose root array is indexed although it is empty. */
  ghost predicate EmptyRoot(data: seq<byte>) {
    ReadArray(data).Some? && ReadArray(data).value.value == []
  }

  /** Version 1 secrets with an empty relying party ID, which is stored as NULL and then copied. */
  ghost predicate Unnamed(plain: seq<byte>) {
    && ReadArray(plain).Some?
    && var items := ReadArray(plain).value.value;
       SecretShape(items) && items[0].value == 1 && items[1].data == []
  }

  lemma SecretsWithoutName(plain: seq<byte>)
    ensures LoadSecrets(plain).Done? && LoadSecrets(plain).value.value.relyingPartyId.None? <==> Unnamed(plain)
  {
    hide ReadArray;
    if ReadArray(plain).Some? {
      ReadArrayIsValid(plain);
    }
  }

  /** Opening a record with its key is undefined exactly when its box is long enough to be opened and
      either its nonce is short, or what is inside is an empty array or has no relying party ID. */
  ghost predicate OpensUndefined(crypto: Crypto, r: Cleartext, key: Blob) {
    && |r.encryptedData| >= 16
    && (|r.nonce| < 24
        || var plain := crypto.open(r.encryptedData, r.nonce[..24], key);
           plain.Some? && (EmptyRoot(plain.value) || Unnamed(plain.value)))
  }

  lemma UnsealedUndefinedExactly(crypto: Crypto, r: Cleartext, key: Blob, mixin: Option<CStr>)
    requires Lawful(crypto)
    ensures Unsealed(crypto, r, key, mixin).Undefined? <==> OpensUndefined(crypto, r, key)
  {
    hide LoadSecrets, ReadArray, Unnamed, ClientDataHash, XorBytes;
    if |r.encryptedData| >= MAC_BYTES && |r.nonce| >= NONCE_BYTES {
      var plain := crypto.open(r.encryptedData, r.nonce[..NONCE_BYTES], key);
      if plain.Some? {
        SecretsWithoutName(plain.value);
      }
    }
  }

  /** Recovering from any bytes leaves what C defines exactly when the root array is empty, or the
      password hash gives a key and opening the record with it does. */
  lemma UndefinedExactly(crypto: Crypto, data: seq<byte>, passphrase: CStr, mixin: Option<CStr>)
    requires Lawful(crypto)
    ensures FromKeyfile(crypto, data, passphrase, mixin).Undefined? <==>
      || EmptyRoot(data)
      || (LoadClear(data).Done?
          && var r := LoadClear(data).value.value;
             var key := crypto.passwordHash(passphrase, r.kdfSalt, r.opslimit, r.memlimit, r.algorithm);
             && |r.kdfSalt| == 16 && key.Some? && |r.encryptedData| >= 16
             && (|r.nonce| < 24
                 || var plain := crypto.open(r.encryptedData, r.nonce[..24], key.value);
                    plain.Some? && (EmptyRoot(plain.value) || Unnamed(plain.value))))
  {
    hide LoadClear, ReadArray, Unsealed, Unnamed, EmptyRoot;
    RootlessIsUndefined(data);
    if LoadClear(data).Done? {
      var r := LoadClear(data).value.value;
      var key := Derived(crypto, SpecFrom(passphrase, r));
      if key.Done? {
        UnsealedUndefinedExactly(crypto, r, key.value, mixin);
      }
    }
  }

  lemma RootlessIsUndefined(data: seq<byte>)
    ensures LoadClear(data).Undefined? <==> EmptyRoot(data)
  {
    hide ReadArray;
  }

  /** A keyfile that anyone can write: everything in order but for an empty nonce. */
  const EMPTY_NONCE := Cleartext(SERIALIZATION_VERSION, [], seq(SALT_BYTES, i => 0), OPSLIMIT_INTERACTIVE,
                                 MEMLIMIT_INTERACTIVE, ALG_ARGON2I13, [], seq(MAC_BYTES, i => 0))

  lemma EmptyNonceIsUndefined(crypto: Crypto, passphrase: CStr, mixin: Option<CStr>, tail: seq<byte>)
    requires Lawful(crypto)
    ensures FromKeyfile(crypto, WriteClear(EMPTY_NONCE) + tail, passphrase, mixin).Undefined?
       <==> crypto.passwordHash(passphrase, seq(16, i => 0), 2, 67108864, 1).Some?
  {
    hide LoadClear, WriteClear, EmptyRoot;
    assert EMPTY_NONCE.kdfSalt == seq(16, i => 0);
    RootlessIsUndefined(WriteClear(EMPTY_NONCE) + tail);
    ClearRoundTrip(EMPTY_NONCE, tail);
    UndefinedExactly(crypto, WriteClear(EMPTY_NONCE) + tail, passphrase, mixin);
  }

  /** With an enrolled keyfile and any passphrase, only a box that opens to something the enrolment
      never sealed is undefined; with the passphrase it was enrolled with, nothing is. */
  lemma EnrolledKeyfileIsDefined(e: Enrolment, tail: seq<byte>, passphrase: CStr, mixin: Option<CStr>)
    requires e.Completed()
    ensures |e.Record().nonce| == 24 && !EmptyRoot(e.Keyfile() + tail)
    ensures FromKeyfile(e.crypto, e.Keyfile() + tail, passphrase, mixin).Undefined? <==>
      var r := e.Record();
      var key := e.crypto.passwordHash(passphrase, r.kdfSalt, r.opslimit, r.memlimit, r.algorithm);
      key.Some?
      && var plain := e.crypto.open(r.encryptedData, r.nonce, key.value);
         plain.Some? && (EmptyRoot(plain.value) || Unnamed(plain.value))
    ensures !FromKeyfile(e.crypto, e.Keyfile() + tail, e.fields.passphrase.value, mixin).Undefined?
  {
    hide LoadClear, WriteClear, Enrolled, RelyingPartyId, EmptyRoot, Unnamed, FromKeyfile, XorBytes;
    EnrolThenRecover(e, tail, mixin);
    ClearRoundTrip(e.Record(), tail);
    EnrolledRecord(e);
    UndefinedExactly(e.crypto, e.Keyfile() + tail, passphrase, mixin);
    assert e.Record().nonce[..24] == e.Record().nonce;
    RootlessIsUndefined(e.Keyfile() + tail);
  }

  lemma EnrolledRecord(e: Enrolment)
    requires e.Completed()
    ensures Loadable(e.Record()) && |e.Record().kdfSalt| == SALT_BYTES
    ensures |e.Record().nonce| == NONCE_BYTES && |e.Record().encryptedData| >= MAC_BYTES
  {
    hide RelyingPartyId, PinFrom, Created, WriteSecrets;
    CompletedEnrolment(e);
  }

  /** With an enrolled keyfile, the recovery stays inside what C defines and never calls a bug, with
      its own passphrase it can only fail to hash the mixin, and no scan reports a missing
      credential or salt. */
  lemma EnrolledKeyfileHasNoBugExits(e: Enrolment, s: Session, tail: seq<byte>, passphrase: CStr, mixin: Option<CStr>)
    requires e.Completed()
    ensures FromKeyfile(e.crypto, e.Keyfile() + tail, passphrase, mixin) != Exit(96)
    ensures var own := FromKeyfile(e.crypto, e.Keyfile() + tail, e.fields.passphrase.value, mixin);
      own.Done? || own == Exit(66)
    ensures mixin.None? ==> FromKeyfile(e.crypto, e.Keyfile() + tail, e.fields.passphrase.value, mixin).Done?
    ensures ScansFor(e, s, tail, mixin) ==> ScanFrom(s, 0) != Ended(96)
  {
    hide FromKeyfile, LoadClear, WriteClear, Sealed, RelyingPartyId, ScansFor;
    EnrolThenRecover(e, tail, mixin);
    CompletedEnrolment(e);
    ClearRoundTrip(e.Record(), tail);
    EnrolledRecord(e);
    BugExitExactly(e.crypto, e.Keyfile() + tail, passphrase, mixin);
    if ScansFor(e, s, tail, mixin) {
      ScannedRequest(e, s, tail, mixin);
      ScanBugExactly(s);
    }
  }

  /** The scan comes to asking the `i`-th device for a secret. */
  predicate IsAsked(s: Session, i: nat)
    requires i < |s.devices|
  {
    var d := s.devices[i];
    && d.opens && d.isFido2 && d.infoReadable && (s.aaguid == [] || d.aaguid == s.aaguid)
    && Ascii("hmac-secret") in d.extensions
    && (d.hasPin ==> PinFor(s, i).Some? && PinFor(s, i) != Some([]))
  }

  lemma BugVerdict(s: Session, i: nat)
    requires i < |s.devices|
    ensures VerdictAt(s, i) == Fatal(96) <==>
      (s.request.credentialId == [] || s.request.salt == []) && IsAsked(s, i)
  {
    hide PinAt, PendingAt, PinFrom;
    PinExits(s.pin, s.terminal, PendingAt(s, i));
  }

  /** The scan calls a bug exactly when the credential ID or the salt is empty and every device before
      the first that is asked passes. */
  lemma ScanBugExactly(s: Session)
    ensures ScanFrom(s, 0) == Ended(96) <==>
      && (s.request.credentialId == [] || s.request.salt == [])
      && exists k :: 0 <= k < |s.devices| && IsAsked(s, k) && AllPass(s, 0, k)
  {
    hide VerdictAt, IsAsked, AllPass;
    FirstMatch(s, 0);
    forall k | 0 <= k < |s.devices|
      ensures VerdictAt(s, k) == Fatal(96) <==>
        (s.request.credentialId == [] || s.request.salt == []) && IsAsked(s, k)
    {
      BugVerdict(s, k);
    }
  }

  /** Asking the `i`-th device ends in freeing the parameters: the device refuses the request, fails
      for good, or gives a secret. */
  predicate AskingFrees(s: Session, i: nat)
    requires i < |s.devices|
  {
    var d := s.devices[i];
    var reply := d.getAssertion(s.request, PinFor(s, i));
    && IsAsked(s, i) && s.request.credentialId != [] && s.request.salt != []
    && (!d.accepts(s.request)
        || if reply.result.FidoOk? then reply.bytes != []
           else !reply.result.InvalidCredential? && !reply.result.UserActionPending? && !reply.result.NoCredentials?
                && !reply.result.ActionTimeout? && !reply.result.PinInvalid?)
  }

  /** The `i`-th device is due a PIN that its buffer cannot hold, or whose line starts with a NUL. */
  predicate PinTraps(s: Session, i: nat)
    requires i < |s.devices|
  {
    var d := s.devices[i];
    && d.opens && d.isFido2 && d.infoReadable && (s.aaguid == [] || d.aaguid == s.aaguid)
    && Ascii("hmac-secret") in d.extensions && d.hasPin
    && match s.pin
       case Some(pin) => |pin| >= 255
       case None => s.terminal.NotTty? && PendingAt(s, i) != [] && PendingAt(s, i)[0] == 0
  }

  lemma TrapVerdict(s: Session, i: nat)
    requires i < |s.devices|
    ensures VerdictAt(s, i) == Trapped <==>
      PinTraps(s, i) || (|s.request.relyingPartyId| < 31 && AskingFrees(s, i))
  {
    hide PinAt, PendingAt;
    PinUndefinedExactly(s.pin, s.terminal, PendingAt(s, i));
    assert HMAC_SECRET == Ascii("hmac-secret");
    hide PinFrom, Ascii;
  }

  lemma PinUndefinedExactly(option: Option<CStr>, terminal: Terminal, pending: seq<byte>)
    ensures PinFrom(option, terminal, pending).Undefined? <==>
      match option
      case Some(pin) => |pin| >= 255
      case None => terminal.NotTty? && pending != [] && pending[0] == 0
  {
    if option.None? {
      PromptUndefinedExactly(terminal, pending, 255);
    }
  }

  /** A scan leaves what C defines exactly when its first device that does not pass has such a PIN, or
      when the relying party ID is too short to be freed and the scan comes to freeing it; so with
      such an ID no scan prints or returns. */
  lemma ScanUndefinedExactly(s: Session)
    ensures ReturnCode(s).Undefined? <==>
      || (|s.request.relyingPartyId| < 31 && AllPass(s, 0, |s.devices|))
      || exists k :: 0 <= k < |s.devices| && AllPass(s, 0, k)
                     && (PinTraps(s, k) || (|s.request.relyingPartyId| < 31 && AskingFrees(s, k)))
    ensures ReturnCode(s).Done? ==> |s.request.relyingPartyId| >= 31
  {
    hide VerdictAt, PinTraps, AskingFrees, AllPass;
    FirstMatch(s, 0);
    forall k | 0 <= k < |s.devices|
      ensures VerdictAt(s, k) == Trapped <==>
        PinTraps(s, k) || (|s.request.relyingPartyId| < 31 && AskingFrees(s, k))
    {
      TrapVerdict(s, k);
    }
    if ScanFrom(s, 0).Printed? {
      AnswerIsFreeable(s, ScanFrom(s, 0).index);
    }
  }

  lemma AnswerIsFreeable(s: Session, i: nat)
    requires i < |s.devices|
    ensures VerdictAt(s, i).Answered? ==> |s.request.relyingPartyId| >= 31
  {
    hide PinAt, PendingAt, PinFrom;
  }

  /** An enrolment that the command line allowed never reaches a bug exit, and is undefined exactly when
      a device that can be enrolled asks for a PIN that `ObtainPin` cannot hold. */
  lemma ParsedEnrolmentHasNoBugExit(command: CommandLine, files: FileSystem, memory: nat, terminal: Terminal,
                                    pending: seq<byte>, crypto: Crypto, d: Device, random: Randomness)
    requires Sized(random)
    requires Parse(command, files, memory, terminal, pending).Done?
    requires Parse(command, files, memory, terminal, pending).value.fields.subcommand == Subcommand.Enrol
    ensures var Parsed(f, rest) := Parse(command, files, memory, terminal, pending).value;
      && f.passphrase.Some?
      && Enrolled(crypto, f, d, random, terminal, rest) != Exit(96)
      && (Enrolled(crypto, f, d, random, terminal, rest).Undefined? <==>
            d.opens && d.isFido2 && d.infoReadable && Ascii("hmac-secret") in d.extensions && d.hasPin
            && PinFrom(f.authenticatorPin, terminal, rest).Undefined?)
  {
    hide Parse, PinFrom, RelyingPartyId, WriteSecrets;
    ReturnedInvocation(command, files, memory, terminal, pending);
    var Parsed(f, rest) := Parse(command, files, memory, terminal, pending).value;
    PinExits(f.authenticatorPin, terminal, rest);
  }

  lemma PinExits(option: Option<CStr>, terminal: Terminal, pending: seq<byte>)
    ensures PinFrom(option, terminal, pending) != Exit(96)
  {
  }

  /** The exit status `main` gives what the scan returned. */
  function MainStatus(returned: nat): nat {
    if returned == EXIT_NO_DEVICES || returned == EXIT_NO_VALID_AUTHENTICATOR || returned == EXIT_SUCCESS then returned
    else EXIT_PROGRAMMER_ERROR
  }

  lemma MainHandlesEveryScan(s: Session)
    requires ReturnCode(s).Done?
    ensures MainStatus(ReturnCode(s).value) == ReturnCode(s).value
    ensures ReturnCode(s).value == 34 <==> s.devices == []
    ensures ReturnCode(s).value == 35 <==> s.devices != [] && AllPass(s, 0, |s.devices|)
    ensures ReturnCode(s).value == 0 <==>
      exists i, secret :: 0 <= i < |s.devices| && VerdictAt(s, i) == Answered(secret) && AllPass(s, 0, i)
  {
    hide VerdictAt;
    FirstMatch(s, 0);
  }

  // ---------------------------------------------------------------- bad passphrases

  /** A key was derived from the passphrase and the box, long enough and with a full nonce, does not
      open under it. */
  ghost predicate DoesNotOpen(crypto: Crypto, data: seq<byte>, passphrase: CStr) {
    && LoadClear(data).Done?
    && var r := LoadClear(data).value.value;
       var key := crypto.passwordHash(passphrase, r.kdfSalt, r.opslimit, r.memlimit, r.algorithm);
       && |r.kdfSalt| == 16 && key.Some? && |r.encryptedData| >= 16 && |r.nonce| >= 24
       && crypto.open(r.encryptedData, r.nonce[..24], key.value).None?
  }

  lemma BadPassphraseExactly(crypto: Crypto, data: seq<byte>, passphrase: CStr, mixin: Option<CStr>)
    requires Lawful(crypto)
    ensures FromKeyfile(crypto, data, passphrase, mixin) == Exit(33)
       <==> DoesNotOpen(crypto, data, passphrase)
  {
    hide LoadClear, LoadSecrets, ClientDataHash, XorBytes;
  }

  lemma PromptExits(option: Option<CStr>, terminal: Terminal, pending: seq<byte>)
    ensures var o := PinFrom(option, terminal, pending);
      o.Exit? ==> o.code == 68
  {
  }

  lemma VerdictExits(s: Session, i: nat)
    requires i < |s.devices|
    ensures VerdictAt(s, i).Fatal? ==>
      VerdictAt(s, i).code in {65, 68, 96}
  {
    hide PinFrom, PendingAt, PinAt;
    PromptExits(s.pin, s.terminal, PendingAt(s, i));
  }

  /** The codes a scan can end the process with. */
  lemma ScanExits(s: Session)
    ensures ScanFrom(s, 0).Ended? ==>
      ScanFrom(s, 0).code in {65, 68, 96}
  {
    hide ScanFrom, VerdictAt, AllPass;
    FirstMatch(s, 0);
    if ScanFrom(s, 0).Ended? {
      var k :| 0 <= k < |s.devices| && VerdictAt(s, k) == Fatal(ScanFrom(s, 0).code);
      VerdictExits(s, k);
    }
  }

  lemma ParseExits(command: CommandLine, files: FileSystem, memory: nat, terminal: Terminal, pending: seq<byte>)
    ensures var o := Parse(command, files, memory, terminal, pending);
      o.Exit? ==>
        o.code in {32, 36, 68}
  {
    hide Declared, FileFails, Refused, FirstWord;
  }

  /** The exit status of a `generate`, from its command line to `main`. */
  function GenerateStatus(crypto: Crypto, command: CommandLine, files: FileSystem, memory: nat, terminal: Terminal,
                          pending: seq<byte>, devices: seq<Device>): Outcome<nat>
    requires Lawful(crypto)
    requires Parse(command, files, memory, terminal, pending).Done? ==>
      Parse(command, files, memory, terminal, pending).value.fields.subcommand == Generate
  {
    match Parse(command, files, memory, terminal, pending)
    case Exit(code) => Done(code)
    case Undefined => Undefined
    case Done(Parsed(f, rest)) =>
      ReturnedInvocation(command, files, memory, terminal, pending);
      match FromFile(crypto, f, files)
      case Exit(code) => Done(code)
      case Undefined => Undefined
      case Done(Recovery(aaguid, request)) =>
        match ReturnCode(Session(request, aaguid, f.authenticatorPin, terminal, rest, devices))
        case Exit(code) => Done(code)
        case Undefined => Undefined
        case Done(returned) => Done(MainStatus(returned))
  }

  /** `generate` exits 33, for which alone the boot hook asks again, exactly when the keyfile can be read
      and does not open under the passphrase the command line or standard input gave. */
  lemma RetriedExactly(crypto: Crypto, command: CommandLine, files: FileSystem, memory: nat, terminal: Terminal,
                       pending: seq<byte>, devices: seq<Device>)
    requires Lawful(crypto)
    requires Parse(command, files, memory, terminal, pending).Done? ==>
      Parse(command, files, memory, terminal, pending).value.fields.subcommand == Generate
    ensures GenerateStatus(crypto, command, files, memory, terminal, pending, devices) == Done(33)
       <==>
         && Parse(command, files, memory, terminal, pending).Done?
         && var f := Parse(command, files, memory, terminal, pending).value.fields;
            && f.file.Some? && f.passphrase.Some? && ReadFile(files, f.file.value).Done?
            && DoesNotOpen(crypto, files[f.file.value], f.passphrase.value)
  {
    hide Parse, FromKeyfile, DoesNotOpen, ScanFrom;
    ParseExits(command, files, memory, terminal, pending);
    if Parse(command, files, memory, terminal, pending).Done? {
      ReturnedInvocation(command, files, memory, terminal, pending);
      var Parsed(f, rest) := Parse(command, files, memory, terminal, pending).value;
      if ReadFile(files, f.file.value).Done? {
        var data := files[f.file.value];
        BadPassphraseExactly(crypto, data, f.passphrase.value, f.mixin);
        match FromKeyfile(crypto, data, f.passphrase.value, f.mixin) {
          case Done(Recovery(aaguid, request)) =>
            ScanExits(Session(request, aaguid, f.authenticatorPin, terminal, rest, devices));
          case _ =>
        }
      }
    }
  }

  /** A `generate` comes to scanning for what its keyfile gives, with the `-n` PIN and the standard input
      that its command line left. */
  ghost predicate ComesToScan(crypto: Crypto, command: CommandLine, files: FileSystem, memory: nat,
                              terminal: Terminal, pending: seq<byte>, devices: seq<Device>, s: Session)
    requires Lawful(crypto)
  {
    && Parse(command, files, memory, terminal, pending).Done?
    && var Parsed(f, rest) := Parse(command, files, memory, terminal, pending).value;
       && f.file.Some? && f.passphrase.Some? && f.file.value in files && 1 <= |files[f.file.value]| <= 10485760
       && FromKeyfile(crypto, files[f.file.value], f.passphrase.value, f.mixin) == Done(Recovery(s.aaguid, s.request))
       && s.pin == f.authenticatorPin && s.terminal == terminal && s.pending == rest && s.devices == devices
  }

  /** `generate` exits 0 exactly when it comes to a scan whose first device that does not pass answers, 34
      exactly when it comes to one without a device, and 35 exactly when it comes to one that every device
      passes; the two last need an ID that can be freed. */
  lemma StatusesOfScan(crypto: Crypto, command: CommandLine, files: FileSystem, memory: nat, terminal: Terminal,
                       pending: seq<byte>, devices: seq<Device>)
    requires Lawful(crypto)
    requires Parse(command, files, memory, terminal, pending).Done? ==>
      Parse(command, files, memory, terminal, pending).value.fields.subcommand == Generate
    ensures var o := GenerateStatus(crypto, command, files, memory, terminal, pending, devices);
      && (o == Done(0) <==>
            exists s, i, secret ::
              && ComesToScan(crypto, command, files, memory, terminal, pending, devices, s)
              && 0 <= i < |s.devices| && VerdictAt(s, i) == Answered(secret) && AllPass(s, 0, i))
      && (o == Done(34) <==>
            exists s ::
              ComesToScan(crypto, command, files, memory, terminal, pending, devices, s)
              && s.devices == [] && |s.request.relyingPartyId| >= 31)
      && (o == Done(35) <==>
            exists s ::
              ComesToScan(crypto, command, files, memory, terminal, pending, devices, s)
              && s.devices != [] && AllPass(s, 0, |s.devices|) && |s.request.relyingPartyId| >= 31)
  {
    hide GenerateStatus, ComesToScan, VerdictAt, ScanFrom, AllPass, ReturnCode;
    if s :| ComesToScan(crypto, command, files, memory, terminal, pending, devices, s) {
      OneScan(crypto, command, files, memory, terminal, pending, devices, s);
      ScanStatus(crypto, command, files, memory, terminal, pending, devices, s);
      StatusOfScan(s);
    } else {
      NoScan(crypto, command, files, memory, terminal, pending, devices);
    }
  }

  lemma OneScan(crypto: Crypto, command: CommandLine, files: FileSystem, memory: nat, terminal: Terminal,
                pending: seq<byte>, devices: seq<Device>, s: Session)
    requires Lawful(crypto) && ComesToScan(crypto, command, files, memory, terminal, pending, devices, s)
    ensures forall other ::
      ComesToScan(crypto, command, files, memory, terminal, pending, devices, other) ==> other == s
  {
    hide Parse, FromKeyfile;
  }

  lemma ScanStatus(crypto: Crypto, command: CommandLine, files: FileSystem, memory: nat, terminal: Terminal,
                   pending: seq<byte>, devices: seq<Device>, s: Session)
    requires Lawful(crypto) && ComesToScan(crypto, command, files, memory, terminal, pending, devices, s)
    requires Parse(command, files, memory, terminal, pending).Done? ==>
      Parse(command, files, memory, terminal, pending).value.fields.subcommand == Generate
    ensures GenerateStatus(crypto, command, files, memory, terminal, pending, devices)
         == match ReturnCode(s)
            case Exit(code) => Done(code)
            case Undefined => Undefined
            case Done(returned) => Done(MainStatus(returned))
  {
    hide Parse, FromKeyfile, ReturnCode, MainStatus;
  }

  /** The three codes a scan returns are no codes it ends the process with. */
  lemma StatusOfScan(s: Session)
    ensures ReturnCode(s).Done? ==> MainStatus(ReturnCode(s).value) == ReturnCode(s).value
    ensures ReturnCode(s).Exit? ==> ReturnCode(s).code !in {0, 34, 35}
    ensures ReturnCode(s) == Done(0) <==>
      exists i, secret :: 0 <= i < |s.devices| && VerdictAt(s, i) == Answered(secret) && AllPass(s, 0, i)
    ensures ReturnCode(s) == Done(34) <==> s.devices == [] && |s.request.relyingPartyId| >= 31
    ensures ReturnCode(s) == Done(35) <==>
      s.devices != [] && AllPass(s, 0, |s.devices|) && |s.request.relyingPartyId| >= 31
  {
    hide VerdictAt, AllPass;
    FirstMatch(s, 0);
    ScanExits(s);
    if s.devices == [] {
      NoDevicesPass(s);
    }
  }

  lemma NoDevicesPass(s: Session)
    requires s.devices == []
    ensures AllPass(s, 0, |s.devices|)
  {
  }

  lemma NoScan(crypto: Crypto, command: CommandLine, files: FileSystem, memory: nat, terminal: Terminal,
               pending: seq<byte>, devices: seq<Device>)
    requires Lawful(crypto)
    requires forall s :: !ComesToScan(crypto, command, files, memory, terminal, pending, devices, s)
    requires Parse(command, files, memory, terminal, pending).Done? ==>
      Parse(command, files, memory, terminal, pending).value.fields.subcommand == Generate
    ensures var o := GenerateStatus(crypto, command, files, memory, terminal, pending, devices);
      o.Undefined? || o.value !in {0, 34, 35}
  {
    hide Parse, FromKeyfile;
    ParseExits(command, files, memory, terminal, pending);
    if Parse(command, files, memory, terminal, pending).Done? {
      ReturnedInvocation(command, files, memory, terminal, pending);
      var Parsed(f, rest) := Parse(command, files, memory, terminal, pending).value;
      if ReadFile(files, f.file.value).Done? {
        var o := FromKeyfile(crypto, files[f.file.value], f.passphrase.value, f.mixin);
        KeyfileExits(crypto, files[f.file.value], f.passphrase.value, f.mixin);
        if o.Done? {
          RecoveredIsScanned(crypto, command, files, memory, terminal, pending, devices);
        }
      }
    }
  }

  lemma RecoveredIsScanned(crypto: Crypto, command: CommandLine, files: FileSystem, memory: nat, terminal: Terminal,
                           pending: seq<byte>, devices: seq<Device>)
    requires Lawful(crypto) && Parse(command, files, memory, terminal, pending).Done?
    requires var f := Parse(command, files, memory, terminal, pending).value.fields;
      f.file.Some? && f.passphrase.Some? && FromFile(crypto, f, files).Done?
    ensures exists s :: ComesToScan(crypto, command, files, memory, terminal, pending, devices, s)
  {
    hide Parse, FromKeyfile;
    var Parsed(f, rest) := Parse(command, files, memory, terminal, pending).value;
    var Recovery(aaguid, request) := FromFile(crypto, f, files).value;
    assert ComesToScan(crypto, command, files, memory, terminal, pending, devices,
                       Session(request, aaguid, f.authenticatorPin, terminal, rest, devices));
  }

  lemma KeyfileExits(crypto: Crypto, data: seq<byte>, passphrase: CStr, mixin: Option<CStr>)
    requires Lawful(crypto)
    ensures var o := FromKeyfile(crypto, data, passphrase, mixin);
      o.Exit? ==> o.code in {33, 36, 64, 66, 96}
  {
    hide LoadClear, LoadSecrets, ClientDataHash, XorBytes;
  }

  // ---------------------------------------------------------------- the boot hook's command line

  /** `generate -f keyfile -r path` receives the passphrase the boot hook put into the file exactly
      when that has 1 to 1024 bytes: an empty one exits 36, which the hook does not retry, and a
      longer one is cut. */
  lemma HookPassphraseArrives(keyfile: CStr, path: CStr, p: CStr, others: FileSystem, memory: nat, terminal: Terminal,
                              pending: seq<byte>)
    ensures
      var command := CommandLine(Some(Ascii("generate")), [FileOpt(keyfile), PassphraseFileOpt(path)], 0);
      var o := Parse(command, others[path := p], memory, terminal, pending);
      && (p == [] || |p| > 10485760 ==> o == Exit(36))
      && (1 <= |p| <= 10485760 ==>
            o.Done? && o.value.fields.subcommand == Generate && o.value.fields.file == Some(keyfile)
            && o.value.fields.passphrase == Some(StrNDup(p, 1024)))
      && (o.Done? && o.value.fields.passphrase == Some(p) <==> 1 <= |p| <= 1024)
      && (o.Done? ==> o.value.rest == pending)
  {
    var files: FileSystem := others[path := p];
    var options := [FileOpt(keyfile), PassphraseFileOpt(path)];
    CStringUnique(p, p);
    if p == [] || |p| > 10485760 {
      assert FileFails(files, options[1]);
    } else {
      LastOptionWins(Generate, options, files, 0);
      LastOptionWins(Generate, options, files, 1);
      UnwrittenField(Generate, options, files, DeviceOpt([]));
      UnwrittenField(Generate, options, files, HardnessOpt([]));
    }
    hide Latest;
  }

  // ---------------------------------------------------------------- what a run leaves behind

  ghost predicate AllMatch(s: Session, n: nat)
    requires n <= |s.devices|
  {
    forall i :: 0 <= i < n ==> Matches(s, s.devices[i])
  }

  lemma {:induction false} KeepsNothing(s: Session, n: nat)
    requires n <= |s.devices|
    ensures KeptBefore(s, n) == {} <==> AllMatch(s, n) && Askers(s, n) == 0
  {
    hide Matches, AsksPin, AllMatch, PinOwner, BufferOf;
    if n == 0 {
      NothingYet(s);
    } else {
      KeepsNothing(s, n - 1);
      OneMoreMatches(s, n - 1);
      TurnLeaves(s, n - 1);
    }
  }

  lemma {:induction false} NothingBeforeExactly(s: Session, n: nat)
    requires n <= |s.devices|
    ensures KeptBefore(s, n) - BufferOf(PinOwner(s, n)) == {} <==> AllMatch(s, n) && Askers(s, n) <= 1
  {
    hide Matches, AsksPin, BufferOf, KeptBefore, PinOwner, AllMatch;
    if n == 0 {
      NothingYet(s);
    } else {
      KeepsNothing(s, n - 1);
      NothingBeforeExactly(s, n - 1);
      TurnLeaves(s, n - 1);
      OneMoreMatches(s, n - 1);
    }
  }

  /** A scan that ends without a secret leaves nothing live exactly when no PIN was given with `-n`,
      every device matched and at most one was asked for a PIN: the string of `-n` is never freed, a
      device that does not match stays open, and each further PIN buffer loses the one before it.  A
      scan that printed frees neither the invocation nor that string, and leaves nothing else exactly
      when the devices up to the one that answered are so. */
  lemma LeavesNothingExactly(s: Session, before: string, after: string, pending: seq<byte>, live: set<Resource>)
    requires RunOf(s, before, after, pending, live)
    ensures ScanFrom(s, 0).Exhausted? ==>
      && (InvocationPin in live <==> s.pin.Some?)
      && (live == {} <==> s.pin.None? && AllMatch(s, |s.devices|) && Askers(s, |s.devices|) <= 1)
      && (live == GivenPin(s.pin) <==> AllMatch(s, |s.devices|) && Askers(s, |s.devices|) <= 1)
    ensures ScanFrom(s, 0).Printed? ==>
      var n := ScanFrom(s, 0).index + 1;
      && TheInvocation in live && (InvocationPin in live <==> s.pin.Some?)
      && (live == {TheInvocation} + GivenPin(s.pin) <==> AllMatch(s, n) && Askers(s, n) <= 1)
  {
    hide ScanFrom, LeftAt, AllMatch, PendingAt, KeptBefore, PinOwner, BufferOf, GivenPin, Askers;
    match ScanFrom(s, 0) {
      case Printed(i, _) =>
        NothingBeforeExactly(s, i + 1);
        LeftOver(s, i + 1);
      case Exhausted =>
        NothingBeforeExactly(s, |s.devices|);
        LeftOver(s, |s.devices|);
      case _ =>
    }
  }

  /** The invocation and its PIN are none of what the devices leave. */
  lemma LeftOver(s: Session, n: nat)
    requires n <= |s.devices|
    ensures var kept := KeptBefore(s, n) - BufferOf(PinOwner(s, n));
      && TheInvocation in LeftAt(s, n) && (InvocationPin in LeftAt(s, n) <==> s.pin.Some?)
      && (LeftAt(s, n) == {TheInvocation} + GivenPin(s.pin) <==> kept == {})
      && (LeftAt(s, n) - {TheInvocation} == GivenPin(s.pin) <==> kept == {})
      && (LeftAt(s, n) - {TheInvocation} == {} <==> s.pin.None? && kept == {})
  {
    hide PinOwner;
    var kept := KeptBefore(s, n) - BufferOf(PinOwner(s, n));
    assert LeftAt(s, n) == {TheInvocation} + GivenPin(s.pin) + kept;
    assert kept == LeftAt(s, n) - {TheInvocation} - GivenPin(s.pin);
  }

  lemma NothingYet(s: Session)
    ensures KeptBefore(s, 0) == {} && AllMatch(s, 0)
  {
  }

  lemma OneMoreMatches(s: Session, i: nat)
    requires i < |s.devices|
    ensures AllMatch(s, i + 1) <==> AllMatch(s, i) && Matches(s, s.devices[i])
  {
  }

  lemma TurnLeaves(s: Session, i: nat)
    requires i < |s.devices|
    ensures var d, left := s.devices[i], KeptBefore(s, i + 1) - BufferOf(PinOwner(s, i + 1));
      && (!Matches(s, d) ==> left != {})
      && (Matches(s, d) && AsksPin(s, d) ==> left == KeptBefore(s, i))
      && (Matches(s, d) && !AsksPin(s, d) ==> left == KeptBefore(s, i) - BufferOf(PinOwner(s, i)))
      && (AsksPin(s, d) ==> Matches(s, d))
  {
    hide Matches;
    if !Matches(s, s.devices[i]) {
      assert Handle(i) in KeptBefore(s, i + 1);
    }
  }

  // ---------------------------------------------------------------- sizes

  /** The size of an enrolled keyfile in its only two variable parts. */
  lemma EnrolledSize(e: Enrolment)
    requires e.Completed()
    ensures |e.Keyfile()| == 66 + StringSize(|e.device.aaguid|) + StringSize(149 + StringSize(|e.CredentialId()|))
  {
    hide WriteClear, WriteSecrets, RelyingPartyId, PinFrom, Created;
    CompletedEnrolment(e);
    var secrets := Secrets(SERIALIZATION_VERSION, Some(e.Request().relyingPartyId), e.CredentialId(), e.random.salt);
    CStringUnique(e.Request().relyingPartyId, e.Request().relyingPartyId);
    SecretsSize(secrets);
    ClearSize(e.Record());
  }

  /** Of a device with a 16-byte AAGUID, the keyfile can be read back exactly when the credential ID
      has at most 10485518 bytes, far above the 65535 bytes an authenticator can return. */
  lemma EnrolledKeyfileReadsBack(e: Enrolment, files: FileSystem, path: CStr)
    requires e.Completed() && |e.device.aaguid| == 16
    ensures ReadFile(WriteFile(files, path, e.Keyfile(), true).files, path) == Done(e.Keyfile())
       <==> |e.CredentialId()| <= 10485518
  {
    EnrolledSize(e);
    hide Enrolled, WriteClear;
  }

  lemma OrdinaryKeyfilesReadBack(e: Enrolment, files: FileSystem, path: CStr)
    requires e.Completed() && |e.device.aaguid| <= 65535 && |e.CredentialId()| <= 65535
    ensures ReadFile(WriteFile(files, path, e.Keyfile(), true).files, path) == Done(e.Keyfile())
  {
    EnrolledSize(e);
    hide Enrolled, WriteClear;
  }

  /** Enrolment through to generation over a file: the keyfile replaces whatever was at its path, and
      a `generate` that names the path and gives the passphrase gets the enrolled parameters, unless
      the keyfile is longer than the reader allows. */
  lemma EnrolWriteGenerate(e: Enrolment, files: FileSystem, path: CStr, f: Fields)
    requires e.Completed() && f.file == Some(path) && f.passphrase == e.fields.passphrase
    ensures var w := WriteFile(files, path, e.Keyfile(), true);
      && w.outcome.Done?
      && FromFile(e.crypto, f, w.files)
         == if |e.Keyfile()| > LARGEST_VALID_PAYLOAD_SIZE_BYTES then Exit(EXIT_DESERIALIZATION_ERROR)
            else match MixedSalt(e.crypto, e.random.salt, f.mixin)
              case Exit(code) => Exit(code)
              case Undefined => Undefined
              case Done(salt) => Done(Recovery(e.device.aaguid, e.Request().(salt := salt)))
  {
    EnrolledSize(e);
    EnrolThenRecover(e, [], f.mixin);
    assert e.Keyfile() + [] == e.Keyfile();
    hide Enrolled, WriteClear, MixedSalt, FromKeyfile;
  }
}
