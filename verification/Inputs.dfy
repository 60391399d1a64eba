/** Inputs that reach what the theorems only bound: a completed enrolment and its run, and one for each
    documented rule or promise that fails. */
module Inputs {
  import opened Basics
  import opened Console
  import opened Files
  import opened Invocation
  import opened KeyfileFormat
  import opened KeyfileSize
  import opened Cryptography
  import opened Authenticator
  import opened Sealing
  import opened Enrol
  import opened Scan
  import opened ScanTheorems
  import opened Generate
  import opened EndToEnd
  import opened EnrolOutcomes
  import Hex

  function Zeros(n: nat): seq<byte> { seq(n, i => 0) }

  function ZeroHash(n: nat, data: CStr): Option<seq<byte>> { Some(Zeros(n)) }

  function EmptyKey(passphrase: CStr, salt: Blob, opslimit: uint64, memlimit: uint64, algorithm: int32): Option<Blob> {
    Some([])
  }

  function PutMac(m: seq<byte>, nonce: Blob, key: Blob): Option<Blob> {
    if |m| + MAC_BYTES < TWO_TO_64 then Some(Zeros(MAC_BYTES) + m) else None
  }

  function DropMac(box: Blob, nonce: Blob, key: Blob): Option<seq<byte>> {
    if |box| < MAC_BYTES then None else Some(box[MAC_BYTES..])
  }

  function SealNothing(m: seq<byte>, nonce: Blob, key: Blob): Option<Blob> { None }

  function OpenNothing(box: Blob, nonce: Blob, key: Blob): Option<seq<byte>> { None }

  /** A lawful cryptography that seals by putting 16 bytes in front. */
  const PLAIN := Crypto(EmptyKey, PutMac, DropMac, ZeroHash)

  /** A lawful cryptography that seals and opens nothing. */
  const SHUT := Crypto(EmptyKey, SealNothing, OpenNothing, ZeroHash)

  lemma BothAreLawful()
    ensures Lawful(PLAIN) && Lawful(SHUT)
  {
    forall m: seq<byte>, nonce: Blob, key: Blob | PLAIN.seal(m, nonce, key).Some?
      ensures |PLAIN.seal(m, nonce, key).value| == |m| + MAC_BYTES
      ensures PLAIN.open(PLAIN.seal(m, nonce, key).value, nonce, key) == Some(m)
    {
      assert (Zeros(MAC_BYTES) + m)[MAC_BYTES..] == m;
    }
  }

  function AcceptCredential(relyingPartyId: CStr, clientDataHash: seq<byte>): bool { true }

  function MakeCredential(relyingPartyId: CStr, clientDataHash: seq<byte>, pin: Option<CStr>): Reply {
    Reply(FidoOk, [1])
  }

  function Accept(request: Request): bool { true }

  function GetAssertion(request: Request, pin: Option<CStr>): Reply { Reply(FidoOk, [2]) }

  /** A device that does all it is asked, without a PIN. */
  const WILLING := Device(true, true, true, [7], [HMAC_SECRET], false, AcceptCredential, MakeCredential, Accept,
                          GetAssertion)

  function SameDraws(n: nat): (draws: seq<Draw>)
    ensures |draws| == n
  {
    if n == 0 then [] else SameDraws(n - 1) + [0]
  }

  const DRAWS := Randomness(SameDraws(RELYING_PARTY_ID_SIZE), Zeros(SALT_SIZE_BYTES), Zeros(SALT_BYTES),
                            Zeros(NONCE_BYTES))

  function SampleEnrolment(obfuscate: bool): Enrolment {
    Enrolment(
      PLAIN,
      Fields(Subcommand.Enrol, Some([1]), Some([2]), Some([3]), None, obfuscate, Low, None),
      WILLING, DRAWS, NotTty, [])
  }

  lemma SampleIsSealed()
    ensures var spec := NewKeySpec([3], Low, DRAWS.kdfSalt);
      && Sized(DRAWS) && spec.Done?
      && Sealed(PLAIN, FirstRequest(DRAWS).(credentialId := [1]), spec.value, DRAWS.nonce).Done?
  {
    hide RelyingPartyId, ClientDataHash, WriteSecrets;
    var id := RelyingPartyId(DRAWS.rpid);
    CStringUnique(id, id);
    SecretsSize(Secrets(SERIALIZATION_VERSION, Some(id), [1], DRAWS.salt));
  }

  /** Enrolments run to their end. */
  lemma CompletedEnrolmentExists(obfuscate: bool)
    ensures SampleEnrolment(obfuscate).Completed()
    ensures SampleEnrolment(obfuscate).Record().deviceAaguid == [7]
    ensures SampleEnrolment(obfuscate).CredentialId() == [1]
  {
    hide Sealed, RelyingPartyId, ClientDataHash;
    BothAreLawful();
    SampleIsSealed();
  }

  /** An enrolment that was asked to obfuscate the device and stores its AAGUID all the same. */
  lemma ObfuscationIsIgnored()
    ensures var e := SampleEnrolment(true);
      e.Completed() && e.fields.obfuscateDeviceInfo && e.Record().deviceAaguid != []
  {
    CompletedEnrolmentExists(true);
  }

  /** Generation with what the sample enrolled, on the device it was enrolled on. */
  ghost function SampleSession(): Session
    requires SampleEnrolment(false).Completed()
  {
    Session(SampleEnrolment(false).Request(), [7], None, NotTty, [], [WILLING])
  }

  /** Enrolling and generating print a secret. */
  lemma SampleRunPrints(before: string, after: string, pending: seq<byte>, live: set<Resource>)
    ensures SampleEnrolment(false).Completed()
    ensures ScansFor(SampleEnrolment(false), SampleSession(), [], None)
    ensures ReturnCode(SampleSession()) == Done(EXIT_SUCCESS)
    ensures RunOf(SampleSession(), before, after, pending, live) ==> after == before + Hex.OfBytes([2]) + "\n"
  {
    hide RunOf, ReturnCode, Enrolled, FromKeyfile, RelyingPartyId, ClientDataHash;
    CompletedEnrolmentExists(false);
    EnrolThenRecover(SampleEnrolment(false), [], None);
    EnrolledDevicePrints(SampleEnrolment(false), SampleSession(), [], None, 0);
  }

  /** A keyfile in order but for an empty key salt is taken for a bug, whatever the passphrase. */
  lemma EmptySaltIsCalledABug(crypto: Crypto, passphrase: CStr, mixin: Option<CStr>, tail: seq<byte>)
    requires Lawful(crypto)
    ensures FromKeyfile(crypto, WriteClear(EMPTY_NONCE.(kdfSalt := [])) + tail, passphrase, mixin)
         == Exit(EXIT_PROGRAMMER_ERROR)
  {
    hide FromKeyfile, LoadClear, WriteClear;
    ClearRoundTrip(EMPTY_NONCE.(kdfSalt := []), tail);
    BugExitExactly(crypto, WriteClear(EMPTY_NONCE.(kdfSalt := [])) + tail, passphrase, mixin);
  }

  function Scanning(relyingPartyId: CStr, credentialId: Blob): Session {
    Session(Request(relyingPartyId, ClientDataHash(), credentialId, [1]), [], None, NotTty, [], [WILLING])
  }

  /** A device that answers for a relying party ID of one character, and one that is asked about no
      credential. */
  lemma ScansThatFail()
    ensures ReturnCode(Scanning([0x61], [1])).Undefined?
    ensures forall id: CStr :: ScanFrom(Scanning(id, []), 0) == Ended(EXIT_PROGRAMMER_ERROR)
  {
    hide ClientDataHash;
  }

  /** Every enrolled keyfile is a bad passphrase to a cryptography that opens nothing. */
  lemma NothingOpens(e: Enrolment, passphrase: CStr, mixin: Option<CStr>, tail: seq<byte>)
    requires e.Completed()
    ensures Lawful(SHUT)
    ensures FromKeyfile(SHUT, e.Keyfile() + tail, passphrase, mixin) == Exit(EXIT_BAD_PASSPHRASE)
  {
    hide FromKeyfile, LoadClear, WriteClear, Enrolled;
    BothAreLawful();
    EnrolledRecord(e);
    ClearRoundTrip(e.Record(), tail);
    BadPassphraseExactly(SHUT, e.Keyfile() + tail, passphrase, mixin);
  }

  function WithPin(file: CStr, passphrase: CStr, pin: CStr): CommandLine {
    CommandLine(Some(Ascii("generate")), [FileOpt(file), PassphraseOpt(passphrase), PinOpt(pin)], 0)
  }

  /** `generate -f file -p passphrase -n pin` with no device connected returns with the PIN live. */
  lemma GivenPinIsLeft(file: CStr, passphrase: CStr, pin: CStr, files: FileSystem, memory: nat, request: Request,
                       aaguid: Blob, pending: seq<byte>, before: string, after: string, left: seq<byte>,
                       live: set<Resource>)
    ensures var o := Parse(WithPin(file, passphrase, pin), files, memory, NotTty, pending);
      && o.Done? && o.value.fields.subcommand == Generate
      && var s := Session(request, aaguid, o.value.fields.authenticatorPin, NotTty, o.value.rest, []);
         Freeable(request) && RunOf(s, before, after, left, live) ==>
           ReturnCode(s) == Done(EXIT_NO_DEVICES) && live == {InvocationPin}
  {
    WithPinParses(file, passphrase, pin, files, memory, pending);
    hide Parse;
  }

  lemma WithPinParses(file: CStr, passphrase: CStr, pin: CStr, files: FileSystem, memory: nat, pending: seq<byte>)
    ensures var o := Parse(WithPin(file, passphrase, pin), files, memory, NotTty, pending);
      o.Done? && o.value.fields.subcommand == Generate && o.value.fields.authenticatorPin.Some?
  {
    WithPinFields(file, passphrase, pin, files);
    assert FirstWord(Some(Ascii("generate"))) == Some(Generate);
    hide Declared, FirstWord;
  }

  lemma WithPinFields(file: CStr, passphrase: CStr, pin: CStr, files: FileSystem)
    ensures var f := Declared(Generate, WithPin(file, passphrase, pin).options, files);
      && f.subcommand == Generate && f.file.Some? && f.passphrase.Some? && f.authenticatorPin.Some?
      && f.device.None? && f.kdfHardness == Unspecified && !f.obfuscateDeviceInfo
  {
    hide Latest, StrNDup;
    var options := WithPin(file, passphrase, pin).options;
    LastOptionWins(Generate, options, files, 0);
    LastOptionWins(Generate, options, files, 1);
    LastOptionWins(Generate, options, files, 2);
    UnwrittenField(Generate, options, files, DeviceOpt([]));
    UnwrittenField(Generate, options, files, HardnessOpt([]));
  }

  // ---------------------------------------------------------------- the wrong passphrase

  /** What a key of at most 15 bytes puts in front of what it seals. */
  function Frame(key: Blob): (frame: seq<byte>)
    requires |key| <= 15
    ensures |frame| == 16
  {
    [|key| as byte] + key + Zeros(15 - |key|)
  }

  lemma FramesDiffer(a: Blob, b: Blob)
    requires |a| <= 15 && |b| <= 15 && Frame(a) == Frame(b)
    ensures a == b
  {
    assert Frame(a)[0] as nat == |a| && Frame(b)[0] as nat == |b|;
    assert Frame(a)[1..1 + |a|] == a && Frame(b)[1..1 + |b|] == b;
  }

  /** A passphrase of at most 15 bytes is its own key; a longer one has a key that seals nothing. */
  function OwnKey(passphrase: CStr, salt: Blob, opslimit: uint64, memlimit: uint64, algorithm: int32): Option<Blob> {
    if |passphrase| <= 15 then Some(passphrase) else Some(Zeros(16))
  }

  function SealFramed(m: seq<byte>, nonce: Blob, key: Blob): Option<Blob> {
    if |key| <= 15 && |m| + 16 < TWO_TO_64 then Some(Frame(key) + m) else None
  }

  function OpenFramed(box: Blob, nonce: Blob, key: Blob): Option<seq<byte>> {
    if |key| <= 15 && |box| >= 16 && box[..16] == Frame(key) then Some(box[16..]) else None
  }

  /** A lawful cryptography whose boxes open under their own key alone. */
  const LOCKED := Crypto(OwnKey, SealFramed, OpenFramed, ZeroHash)

  lemma LockedIsLawful()
    ensures Lawful(LOCKED)
  {
    forall m: seq<byte>, nonce: Blob, key: Blob | LOCKED.seal(m, nonce, key).Some?
      ensures |LOCKED.seal(m, nonce, key).value| == |m| + MAC_BYTES
      ensures LOCKED.open(LOCKED.seal(m, nonce, key).value, nonce, key) == Some(m)
    {
      assert (Frame(key) + m)[..16] == Frame(key) && (Frame(key) + m)[16..] == m;
    }
  }

  lemma OpensUnderItsKeyAlone(m: seq<byte>, nonce: Blob, key: Blob, other: Blob)
    requires LOCKED.seal(m, nonce, key).Some? && other != key
    ensures LOCKED.open(LOCKED.seal(m, nonce, key).value, nonce, other).None?
  {
    assert (Frame(key) + m)[..16] == Frame(key);
    if |other| <= 15 && Frame(other) == Frame(key) {
      FramesDiffer(other, key);
    }
  }

  lemma LockedSeals()
    ensures var spec := NewKeySpec([3], Low, DRAWS.kdfSalt);
      && Sized(DRAWS) && spec.Done?
      && Sealed(LOCKED, FirstRequest(DRAWS).(credentialId := [1]), spec.value, DRAWS.nonce).Done?
  {
    hide RelyingPartyId, ClientDataHash, WriteSecrets, Frame;
    var id := RelyingPartyId(DRAWS.rpid);
    CStringUnique(id, id);
    SecretsSize(Secrets(SERIALIZATION_VERSION, Some(id), [1], DRAWS.salt));
  }

  lemma LockedEnrolmentExists()
    ensures SampleEnrolment(false).(crypto := LOCKED).Completed()
  {
    hide Sealed, RelyingPartyId, ClientDataHash;
    LockedIsLawful();
    LockedSeals();
  }

  /** A keyfile enrolled under that cryptography exits 33 for exactly the passphrases it was not enrolled
      with. */
  lemma WrongPassphraseExits33(e: Enrolment, passphrase: CStr, mixin: Option<CStr>, tail: seq<byte>)
    requires e.Completed() && e.crypto == LOCKED
    ensures FromKeyfile(LOCKED, e.Keyfile() + tail, passphrase, mixin) == Exit(33)
       <==> passphrase != e.fields.passphrase.value
  {
    hide FromKeyfile, LoadClear, WriteClear, WriteSecrets, Enrolled, RelyingPartyId, Frame, PinGiven, Enrollable;
    EnrolledRecord(e);
    CompletedHolds(e);
    ClearRoundTrip(e.Record(), tail);
    BadPassphraseExactly(LOCKED, e.Keyfile() + tail, passphrase, mixin);
    var r := e.Record();
    var plain := WriteSecrets(Secrets(1, Some(RelyingPartyId(e.random.rpid)), e.CredentialId(), e.random.salt));
    var key := OwnKey(e.fields.passphrase.value, r.kdfSalt, r.opslimit, r.memlimit, 1).value;
    var other := OwnKey(passphrase, r.kdfSalt, r.opslimit, r.memlimit, 1).value;
    assert LOCKED.seal(plain, r.nonce, key) == Some(r.encryptedData);
    assert r.nonce[..24] == r.nonce;
    if other != key {
      OpensUnderItsKeyAlone(plain, r.nonce, key, other);
    } else {
      assert LOCKED.open(r.encryptedData, r.nonce, key) == Some(plain);
    }
  }

  // ---------------------------------------------------------------- a key that was not enrolled

  function NoCredential(request: Request, pin: Option<CStr>): Reply { Reply(NoCredentials, []) }

  /** The scan passes over a connected key that does not know the credential. */
  lemma StrangerIsPassedOver(id: CStr)
    requires |id| >= 31
    ensures var s := Scanning(id, [1]).(devices := [WILLING.(getAssertion := NoCredential), WILLING]);
      ScanFrom(s, 0) == Printed(1, [2]) && ReturnCode(s) == Done(0)
  {
    hide ClientDataHash;
  }

  // ---------------------------------------------------------------- the askpass call

  /** `generate -f file -m mixin -p ""` is accepted, with an empty passphrase and the mixin. */
  lemma AskpassCallIsAccepted(file: CStr, mixin: CStr, files: FileSystem, memory: nat, terminal: Terminal,
                              pending: seq<byte>)
    ensures
      var command := CommandLine(Some(Ascii("generate")), [FileOpt(file), MixinOpt(mixin), PassphraseOpt([])], 0);
      Parse(command, files, memory, terminal, pending)
        == Done(Parsed(Fields(Generate, None, Some(file), Some([]), None, false, Unspecified, Some(mixin)), pending))
  {
    AskpassFields(file, mixin, files);
    assert FirstWord(Some(Ascii("generate"))) == Some(Generate);
    hide Declared, FirstWord;
  }

  lemma AskpassFields(file: CStr, mixin: CStr, files: FileSystem)
    ensures Declared(Generate, [FileOpt(file), MixinOpt(mixin), PassphraseOpt([])], files)
         == Fields(Generate, None, Some(file), Some([]), None, false, Unspecified, Some(mixin))
  {
    hide Latest;
    var options := [FileOpt(file), MixinOpt(mixin), PassphraseOpt([])];
    LastOptionWins(Generate, options, files, 0);
    LastOptionWins(Generate, options, files, 1);
    LastOptionWins(Generate, options, files, 2);
    UnwrittenField(Generate, options, files, DeviceOpt([]));
    UnwrittenField(Generate, options, files, PinOpt([]));
    UnwrittenField(Generate, options, files, HardnessOpt([]));
  }
}
