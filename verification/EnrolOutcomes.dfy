/** Every way in which an enrolment ends, and the keyfile of one that completes, in terms of the device's
    replies, the draws and the cryptography themselves. */
module EnrolOutcomes {
  import opened Basics
  import opened Console
  import opened Invocation
  import opened KeyfileFormat
  import opened Cryptography
  import opened Authenticator
  import opened Sealing
  import opened Enrol
  import opened EndToEnd

  /** A device that can be enrolled. */
  predicate Enrollable(d: Device) {
    d.opens && d.isFido2 && d.infoReadable && Ascii("hmac-secret") in d.extensions
  }

  /** The PIN an enrolment goes on with, and what it leaves on standard input: none for a device without
      one, and else the `-n` string or what the next line gives. */
  ghost predicate PinGiven(d: Device, f: Fields, terminal: Terminal, pending: seq<byte>, pin: Option<CStr>,
                           rest: seq<byte>)
  {
    if !d.hasPin then pin.None? && rest == pending
    else match f.authenticatorPin
      case Some(given) => |given| < 255 && pin == f.authenticatorPin && rest == pending
      case None => pin.Some? && Prompt(terminal, pending, 255) == Done(Prompted(pin.value, rest))
  }

  lemma PinGivenIsEnrolPin(d: Device, f: Fields, terminal: Terminal, pending: seq<byte>, pin: Option<CStr>,
                           rest: seq<byte>)
    ensures PinGiven(d, f, terminal, pending, pin, rest) && pin != Some([])
       <==> EnrolPin(d, f, terminal, pending) == Done((pin, rest))
    ensures PinGiven(d, f, terminal, pending, pin, rest) && pin == Some([]) ==>
      EnrolPin(d, f, terminal, pending) == Exit(37)
  {
    hide Prompt;
  }

  lemma KeySpecExactly(passphrase: CStr, h: Hardness, salt: Blob)
    ensures NewKeySpec(passphrase, h, salt)
         == match h
            case Low => Done(KeySpec(passphrase, salt, 3, 67108864, 1))
            case Medium => Done(KeySpec(passphrase, salt, 3, 268435456, 1))
            case High => Done(KeySpec(passphrase, salt, 4, 1073741824, 1))
            case _ => Exit(96)
  {
  }

  /** The key of an enrolment: the operations and the memory are those of the hardness. */
  function KeyFor(crypto: Crypto, passphrase: CStr, h: Hardness, salt: Blob): Option<Blob> {
    match h
    case Low => crypto.passwordHash(passphrase, salt, 3, 67108864, 1)
    case Medium => crypto.passwordHash(passphrase, salt, 3, 268435456, 1)
    case _ => crypto.passwordHash(passphrase, salt, 4, 1073741824, 1)
  }

  ghost predicate CredentialMade(d: Device, id: CStr, pin: Option<CStr>) {
    var hash := seq(32, i => 'A' as byte);
    var reply := d.makeCredential(id, hash, pin);
    d.acceptsCredential(id, hash) && reply.result.FidoOk? && reply.bytes != []
  }

  lemma CreatedExactly(d: Device, id: CStr, pin: Option<CStr>)
    ensures var hash := seq(32, i => 'A' as byte);
            var reply, accepted := d.makeCredential(id, hash, pin), d.acceptsCredential(id, hash);
      Created(d, id, pin) == if CredentialMade(d, id, pin) then Done(reply.bytes)
                             else Exit(if accepted && reply.result.PinInvalid? then 37 else 65)
  {
    assert ClientDataHash() == seq(32, i => 'A' as byte);
  }

  lemma SealedExactly(crypto: Crypto, request: Request, spec: KeySpec, nonce: Blob)
    requires |nonce| == 24 && |spec.kdfSalt| == 16
    requires |request.salt| < TWO_TO_64 && |request.relyingPartyId| < TWO_TO_64
    ensures
      var key := crypto.passwordHash(spec.passphrase, spec.kdfSalt, spec.opslimit, spec.memlimit, spec.algorithm);
      var plain := WriteSecrets(Secrets(1, Some(request.relyingPartyId), request.credentialId, request.salt));
      Sealed(crypto, request, spec, nonce)
      == if key.None? then Exit(64)
         else if crypto.seal(plain, nonce, key.value).None? then Exit(66)
         else Done(Cleartext(1, [], spec.kdfSalt, spec.opslimit, spec.memlimit, spec.algorithm, nonce,
                             crypto.seal(plain, nonce, key.value).value))
  {
    hide WriteSecrets;
  }

  /** What an enrolment stores besides the credential ID, the device's AAGUID and the draws. */
  lemma EndsInTheKeyfile(crypto: Crypto, f: Fields, d: Device, random: Randomness, terminal: Terminal,
                         pending: seq<byte>, pin: Option<CStr>, rest: seq<byte>)
    requires Sized(random) && f.passphrase.Some? && Enrollable(d)
    requires PinGiven(d, f, terminal, pending, pin, rest) && pin != Some([])
    requires CredentialMade(d, RelyingPartyId(random.rpid), pin)
    ensures
      var o, id := Enrolled(crypto, f, d, random, terminal, pending), RelyingPartyId(random.rpid);
      var key := KeyFor(crypto, f.passphrase.value, f.kdfHardness, random.kdfSalt);
      var credentialId := d.makeCredential(id, seq(32, i => 'A' as byte), pin).bytes;
      var plain := WriteSecrets(Secrets(1, Some(id), credentialId, random.salt));
      if f.kdfHardness !in {Low, Medium, High} then o == Exit(96)
      else if key.None? then o == Exit(64)
      else if crypto.seal(plain, random.nonce, key.value).None? then o == Exit(66)
      else
        && o.Done? && o.value.rest == rest
        && o.value.file.version == 1 && o.value.file.deviceAaguid == d.aaguid
        && o.value.file.kdfSalt == random.kdfSalt && o.value.file.nonce == random.nonce
        && o.value.file.opslimit == (if f.kdfHardness == High then 4 else 3)
        && o.value.file.memlimit == (match f.kdfHardness
             case Low => 67108864 case Medium => 268435456 case _ => 1073741824)
        && o.value.file.algorithm == 1
        && o.value.file.encryptedData == crypto.seal(plain, random.nonce, key.value).value
  {
    hide Created, NewKeySpec, Sealed, RelyingPartyId, EnrolPin, PinGiven, WriteSecrets, CredentialMade;
    var id := RelyingPartyId(random.rpid);
    PinGivenIsEnrolPin(d, f, terminal, pending, pin, rest);
    CreatedExactly(d, id, pin);
    KeySpecExactly(f.passphrase.value, f.kdfHardness, random.kdfSalt);
    var spec := NewKeySpec(f.passphrase.value, f.kdfHardness, random.kdfSalt);
    var credentialId := d.makeCredential(id, seq(32, i => 'A' as byte), pin).bytes;
    assert Created(d, id, pin) == Done(credentialId);
    if spec.Done? {
      SealedExactly(crypto, FirstRequest(random).(credentialId := credentialId), spec.value, random.nonce);
    }
  }

  /** An enrolment that makes no credential. */
  lemma EndsAtTheCredential(crypto: Crypto, f: Fields, d: Device, random: Randomness, terminal: Terminal,
                            pending: seq<byte>, pin: Option<CStr>, rest: seq<byte>)
    requires Sized(random) && f.passphrase.Some? && Enrollable(d)
    requires PinGiven(d, f, terminal, pending, pin, rest) && pin != Some([])
    requires !CredentialMade(d, RelyingPartyId(random.rpid), pin)
    ensures
      var id, hash := RelyingPartyId(random.rpid), seq(32, i => 'A' as byte);
      Enrolled(crypto, f, d, random, terminal, pending)
      == Exit(if d.acceptsCredential(id, hash) && d.makeCredential(id, hash, pin).result.PinInvalid? then 37 else 65)
  {
    hide Created, NewKeySpec, Sealed, RelyingPartyId, EnrolPin, PinGiven, CredentialMade;
    PinGivenIsEnrolPin(d, f, terminal, pending, pin, rest);
    CreatedExactly(d, RelyingPartyId(random.rpid), pin);
  }

  /** Before a credential is asked for: a device that cannot be enrolled ends with 65, a PIN that no line
      can be had for with 68 and an empty one with 37, and a PIN its buffer cannot hold is undefined. */
  lemma EndsBeforeTheCredential(crypto: Crypto, f: Fields, d: Device, random: Randomness, terminal: Terminal,
                                pending: seq<byte>)
    requires Sized(random) && f.passphrase.Some?
    requires !Enrollable(d) || forall pin, rest :: PinGiven(d, f, terminal, pending, pin, rest) ==> pin == Some([])
    ensures var o := Enrolled(crypto, f, d, random, terminal, pending);
      if !Enrollable(d) then o == Exit(65)
      else
        && d.hasPin
        && match f.authenticatorPin
           case Some(given) => if |given| >= 255 then o.Undefined? else given == [] && o == Exit(37)
           case None =>
             if terminal.Unknown? || pending == [] then o == Exit(68)
             else if terminal.NotTty? && pending[0] == 0 then o.Undefined?
             else o == Exit(37)
  {
    hide Created, NewKeySpec, Sealed, RelyingPartyId, Prompt, Ascii;
    assert HMAC_SECRET == Ascii("hmac-secret");
    PromptUndefinedExactly(terminal, pending, 255);
    assert !d.hasPin ==> PinGiven(d, f, terminal, pending, None, pending);
    if f.authenticatorPin.Some? {
      assert d.hasPin && |f.authenticatorPin.value| < 255 ==>
        PinGiven(d, f, terminal, pending, f.authenticatorPin, pending);
    } else if Prompt(terminal, pending, 255).Done? {
      var Prompted(secret, rest) := Prompt(terminal, pending, 255).value;
      assert d.hasPin ==> PinGiven(d, f, terminal, pending, Some(secret), rest);
    }
  }

  lemma OnePinGiven(d: Device, f: Fields, terminal: Terminal, pending: seq<byte>, pin: Option<CStr>, rest: seq<byte>,
                    other: Option<CStr>, left: seq<byte>)
    requires PinGiven(d, f, terminal, pending, pin, rest) && PinGiven(d, f, terminal, pending, other, left)
    ensures other == pin && left == rest
  {
    hide Prompt;
  }

  lemma EmptyPinEnds(crypto: Crypto, f: Fields, d: Device, random: Randomness, terminal: Terminal,
                     pending: seq<byte>, rest: seq<byte>)
    requires Sized(random) && f.passphrase.Some? && Enrollable(d)
    requires PinGiven(d, f, terminal, pending, Some([]), rest)
    ensures Enrolled(crypto, f, d, random, terminal, pending) == Exit(37)
  {
    hide PinGiven, EnrolPin;
    PinGivenIsEnrolPin(d, f, terminal, pending, Some([]), rest);
  }

  lemma NoPinEnds(crypto: Crypto, f: Fields, d: Device, random: Randomness, terminal: Terminal, pending: seq<byte>)
    requires Sized(random) && f.passphrase.Some? && Enrollable(d)
    requires forall pin, rest :: !PinGiven(d, f, terminal, pending, pin, rest)
    ensures Enrolled(crypto, f, d, random, terminal, pending) in {Exit(68), Undefined}
  {
    hide Prompt, Created, NewKeySpec, Sealed, RelyingPartyId;
    assert !PinGiven(d, f, terminal, pending, None, pending);
    assert !PinGiven(d, f, terminal, pending, f.authenticatorPin, pending);
    PromptUndefinedExactly(terminal, pending, 255);
    var o := Prompt(terminal, pending, 255);
    if o.Done? {
      assert !PinGiven(d, f, terminal, pending, Some(o.value.secret), o.value.rest);
    }
  }

  /** Exit 37 is a PIN that is empty, or that the device calls invalid; exit 65 a device that cannot be
      enrolled, refuses the request, fails in another way or gives no credential ID. */
  lemma EnrolCodesExactly(crypto: Crypto, f: Fields, d: Device, random: Randomness, terminal: Terminal,
                          pending: seq<byte>)
    requires Sized(random) && f.passphrase.Some?
    ensures
      var o, id, hash := Enrolled(crypto, f, d, random, terminal, pending), RelyingPartyId(random.rpid),
                         seq(32, i => 'A' as byte);
      && (o == Exit(37) <==>
            Enrollable(d)
            && exists pin, rest ::
                 PinGiven(d, f, terminal, pending, pin, rest)
                 && (pin == Some([])
                     || (d.acceptsCredential(id, hash) && d.makeCredential(id, hash, pin).result.PinInvalid?)))
      && (o == Exit(65) <==>
            !Enrollable(d)
            || exists pin, rest ::
                 PinGiven(d, f, terminal, pending, pin, rest) && pin != Some([])
                 && var reply := d.makeCredential(id, hash, pin);
                    (!d.acceptsCredential(id, hash)
                     || if reply.result.FidoOk? then reply.bytes == [] else !reply.result.PinInvalid?))
  {
    hide Enrolled, RelyingPartyId, PinGiven, Enrollable;
    if pin, rest :| PinGiven(d, f, terminal, pending, pin, rest) {
      forall other, left | PinGiven(d, f, terminal, pending, other, left)
        ensures other == pin && left == rest
      {
        OnePinGiven(d, f, terminal, pending, pin, rest, other, left);
      }
      if !Enrollable(d) {
        EndsBeforeTheCredential(crypto, f, d, random, terminal, pending);
      } else if pin == Some([]) {
        EmptyPinEnds(crypto, f, d, random, terminal, pending, rest);
      } else if CredentialMade(d, RelyingPartyId(random.rpid), pin) {
        EndsInTheKeyfile(crypto, f, d, random, terminal, pending, pin, rest);
      } else {
        EndsAtTheCredential(crypto, f, d, random, terminal, pending, pin, rest);
      }
    } else if Enrollable(d) {
      NoPinEnds(crypto, f, d, random, terminal, pending);
    } else {
      EndsBeforeTheCredential(crypto, f, d, random, terminal, pending);
    }
  }

  /** A completed enrolment holds what its device answered to the PIN it was given, what was drawn, and the
      limits of its hardness; the box is the secrets sealed under the key of its passphrase. */
  lemma CompletedHolds(e: Enrolment)
    requires e.Completed()
    ensures Enrollable(e.device) && e.fields.kdfHardness in {Low, Medium, High}
    ensures e.Record().kdfSalt == e.random.kdfSalt && e.Record().nonce == e.random.nonce
    ensures e.Record().opslimit == if e.fields.kdfHardness == High then 4 else 3
    ensures e.Record().memlimit == match e.fields.kdfHardness
      case Low => 67108864 case Medium => 268435456 case _ => 1073741824
    ensures e.Record().algorithm == 1 && e.Record().version == 1
    ensures exists pin, rest ::
      && PinGiven(e.device, e.fields, e.terminal, e.pending, pin, rest) && pin != Some([])
      && e.CredentialId()
         == e.device.makeCredential(RelyingPartyId(e.random.rpid), seq(32, i => 'A' as byte), pin).bytes
      && var key := e.crypto.passwordHash(e.fields.passphrase.value, e.random.kdfSalt, e.Record().opslimit,
                                          e.Record().memlimit, 1);
         key.Some? && e.crypto.seal(
           WriteSecrets(Secrets(1, Some(RelyingPartyId(e.random.rpid)), e.CredentialId(), e.random.salt)),
           e.random.nonce, key.value) == Some(e.Record().encryptedData)
  {
    hide Created, NewKeySpec, Sealed, RelyingPartyId, EnrolPin, PinGiven, WriteSecrets, CredentialMade, Ascii;
    var (pin, rest) := EnrolPin(e.device, e.fields, e.terminal, e.pending).value;
    assert HMAC_SECRET == Ascii("hmac-secret");
    PinGivenIsEnrolPin(e.device, e.fields, e.terminal, e.pending, pin, rest);
    CreatedExactly(e.device, RelyingPartyId(e.random.rpid), pin);
    EndsInTheKeyfile(e.crypto, e.fields, e.device, e.random, e.terminal, e.pending, pin, rest);
  }
}
