/** What a scan makes of each device, and what it leaves live, in terms of the devices' own properties
    and replies. */
module ScanOutcomes {
  import opened Basics
  import opened Console
  import opened Invocation
  import opened Authenticator
  import opened Scan
  import opened ScanTheorems
  import opened Generate

  /** A device that `get_device` and `get_device_info` accept. */
  predicate Usable(d: Device) { d.opens && d.isFido2 && d.infoReadable }

  /** A device the keyfile could be for: of the stored AAGUID, or of any when none is stored, and with
      the hmac-secret extension. */
  predicate Candidate(s: Session, d: Device) {
    (s.aaguid == [] || d.aaguid == s.aaguid) && Ascii("hmac-secret") in d.extensions
  }

  lemma CandidateWithPinAsks(s: Session, d: Device)
    ensures AsksPin(s, d) <==> Candidate(s, d) && d.hasPin
    ensures Candidate(s, d) <==> Matches(s, d) && HMAC_SECRET in d.extensions
  {
    hide Ascii;
  }

  // ---------------------------------------------------------------- verdicts

  /** The PIN that goes to a device with the request: for a device that has one, the `-n` string or what
      the next line gives; for any other, what is left of an earlier device. */
  ghost predicate PinPassed(s: Session, i: nat, pin: Option<CStr>)
    requires i < |s.devices|
  {
    if !s.devices[i].hasPin then pin == PinAt(s, i)
    else match s.pin
      case Some(given) => |given| < 255 && pin == s.pin
      case None =>
        var o := Prompt(s.terminal, PendingAt(s, i), 255);
        o.Done? && pin == Some(o.value.secret)
  }

  lemma VerdictIsAsked(s: Session, i: nat, pin: Option<CStr>)
    requires i < |s.devices| && Usable(s.devices[i]) && Candidate(s, s.devices[i])
    requires PinPassed(s, i, pin) && (s.devices[i].hasPin ==> pin != Some([]))
    ensures VerdictAt(s, i) == Asked(s.devices[i], s.request, pin)
  {
    hide Asked, Prompt, PinAt, PendingAt, Candidate;
    CandidateWithPinAsks(s, s.devices[i]);
  }

  /** What comes of asking a device with a complete request: the scan goes on exactly after the five
      replies, prints exactly an OK with bytes, and ends with 65 exactly for a refused request, an OK
      without bytes or any other reply. */
  lemma AskedExactly(s: Session, i: nat, pin: Option<CStr>)
    requires i < |s.devices| && Usable(s.devices[i]) && Candidate(s, s.devices[i])
    requires PinPassed(s, i, pin) && (s.devices[i].hasPin ==> pin != Some([]))
    requires s.request.credentialId != [] && s.request.salt != [] && |s.request.relyingPartyId| >= 31
    ensures
      var reply, accepted := s.devices[i].getAssertion(s.request, pin), s.devices[i].accepts(s.request);
      && (Passes(VerdictAt(s, i)) <==>
            accepted && (reply.result.InvalidCredential? || reply.result.UserActionPending?
                         || reply.result.NoCredentials? || reply.result.ActionTimeout? || reply.result.PinInvalid?))
      && (forall secret :: VerdictAt(s, i) == Answered(secret) <==>
            accepted && reply.result.FidoOk? && reply.bytes == secret != [])
      && (VerdictAt(s, i) == Fatal(65) <==>
            !accepted || (reply.result.FidoOk? && reply.bytes == []) || reply.result.OtherError?)
  {
    hide VerdictAt, PinPassed, Candidate;
    VerdictIsAsked(s, i, pin);
  }

  /** Without a credential ID or a salt asking ends with 96.  With a relying party ID under 31 characters
      it goes on after the five replies, ends with 65 for an OK without bytes, and else is undefined. */
  lemma AskedInVainExactly(s: Session, i: nat, pin: Option<CStr>)
    requires i < |s.devices| && Usable(s.devices[i]) && Candidate(s, s.devices[i])
    requires PinPassed(s, i, pin) && (s.devices[i].hasPin ==> pin != Some([]))
    ensures VerdictAt(s, i) == Fatal(96) <==> s.request.credentialId == [] || s.request.salt == []
    ensures s.request.credentialId != [] && s.request.salt != [] && |s.request.relyingPartyId| < 31 ==>
      var reply, accepted := s.devices[i].getAssertion(s.request, pin), s.devices[i].accepts(s.request);
      && (Passes(VerdictAt(s, i)) <==>
            accepted && (reply.result.InvalidCredential? || reply.result.UserActionPending?
                         || reply.result.NoCredentials? || reply.result.ActionTimeout? || reply.result.PinInvalid?))
      && (VerdictAt(s, i) == Fatal(65) <==> accepted && reply.result.FidoOk? && reply.bytes == [])
      && (VerdictAt(s, i) == Trapped <==>
            !accepted || reply.result.OtherError? || (reply.result.FidoOk? && reply.bytes != []))
  {
    hide VerdictAt, PinPassed, Candidate;
    VerdictIsAsked(s, i, pin);
  }

  /** The devices that are never asked: one that cannot be used ends the process with 65, one the keyfile
      cannot be for is passed over, and one with a PIN is passed over exactly for an empty PIN, ends the
      process with 68 when no line can be had, and is undefined for a PIN that its buffer cannot hold or
      a line that starts with a NUL. */
  lemma NotAskedExactly(s: Session, i: nat)
    requires i < |s.devices|
    ensures var d, v := s.devices[i], VerdictAt(s, i);
      && (!Usable(d) ==> v == Fatal(65))
      && (Usable(d) && !Candidate(s, d) ==> v == Skipped)
      && (Usable(d) && Candidate(s, d) && d.hasPin ==>
            match s.pin
            case Some(given) => (given == [] ==> v == Skipped) && (|given| >= 255 ==> v == Trapped)
            case None =>
              var pending := PendingAt(s, i);
              && (s.terminal.Unknown? || pending == [] ==> v == Fatal(68))
              && (s.terminal.NotTty? && pending != [] && pending[0] == 0 ==> v == Trapped)
              && var o := Prompt(s.terminal, pending, 255);
                 o.Done? && o.value.secret == [] ==> v == Skipped)
  {
    hide Asked, Prompt, PinAt, PendingAt, Candidate;
    CandidateWithPinAsks(s, s.devices[i]);
    PromptUndefinedExactly(s.terminal, PendingAt(s, i), 255);
  }

  // ---------------------------------------------------------------- standard input and the carried PIN

  /** The `j`-th device is one that a PIN is fetched for. */
  predicate AskedPin(s: Session, j: nat)
    requires j < |s.devices|
  {
    Candidate(s, s.devices[j]) && s.devices[j].hasPin
  }

  /** The devices before the `i`-th that a PIN is fetched for. */
  function AskersBefore(s: Session, i: nat): set<nat>
    requires i <= |s.devices|
  {
    set j: nat | j < i && AskedPin(s, j)
  }

  lemma {:induction false} AskersAreCounted(s: Session, i: nat)
    requires i <= |s.devices|
    ensures Askers(s, i) == |AskersBefore(s, i)|
  {
    hide AsksPin, AskedPin;
    if i == 0 {
      assert AskersBefore(s, 0) == {};
    } else {
      AskersAreCounted(s, i - 1);
      AsksIsAsked(s, i - 1);
      assert AskersBefore(s, i) == AskersBefore(s, i - 1) + if AskedPin(s, i - 1) then {i - 1} else {};
    }
  }

  lemma AsksIsAsked(s: Session, j: nat)
    requires j < |s.devices|
    ensures AsksPin(s, s.devices[j]) <==> AskedPin(s, j)
  {
    CandidateWithPinAsks(s, s.devices[j]);
  }

  /** What a device without a PIN is sent along with the request: nothing before the first PIN was
      fetched, and afterwards the line of the last device that had one. */
  lemma {:induction false} CarriedLine(s: Session, lines: seq<CStr>, tail: seq<byte>, i: nat)
    requires HoldsPins(s, lines, tail) && i <= |s.devices| && Askers(s, i) <= |lines|
    ensures PinAt(s, i) == if Askers(s, i) == 0 then None else Some(lines[Askers(s, i) - 1])
  {
    hide Lines, AsksPin, PinFrom;
    if i > 0 {
      CarriedLine(s, lines, tail, i - 1);
      if AsksPin(s, s.devices[i - 1]) {
        OneLinePerAsker(s, lines, tail, i - 1);
        FirstLine(s, lines, Askers(s, i - 1), tail);
      }
    }
  }

  /** With `-n` nothing is read, and the PIN is carried from the first device that asks on. */
  lemma {:induction false} CarriedOption(s: Session, i: nat)
    requires s.pin.Some? && |s.pin.value| < 255 && i <= |s.devices|
    ensures PendingAt(s, i) == s.pending
    ensures PinAt(s, i) == if Askers(s, i) == 0 then None else s.pin
  {
    hide AsksPin;
    if i > 0 {
      CarriedOption(s, i - 1);
    }
  }

  // ---------------------------------------------------------------- what is left

  lemma {:induction false} KeptExactly(s: Session, n: nat, r: Resource)
    requires n <= |s.devices|
    ensures r in KeptBefore(s, n) <==>
      match r
      case Handle(_) => r.turn < n && s.aaguid != [] && s.devices[r.turn].aaguid != s.aaguid
      case DeviceInfo(_) => r.turn < n && s.aaguid != [] && s.devices[r.turn].aaguid != s.aaguid
      case PinBuffer(_) => r.turn < n && AskedPin(s, r.turn)
      case _ => false
  {
    hide AsksPin, Candidate;
    if n > 0 {
      KeptExactly(s, n - 1, r);
      CandidateWithPinAsks(s, s.devices[n - 1]);
    }
  }

  lemma {:induction false} OwnerIsBefore(s: Session, n: nat)
    requires n <= |s.devices|
    ensures PinOwner(s, n).Some? ==> PinOwner(s, n).value < n
  {
    if n > 0 {
      OwnerIsBefore(s, n - 1);
    }
  }

  lemma {:induction false} OwnerIsLast(s: Session, n: nat, j: nat)
    requires n <= |s.devices| && j < n
    ensures PinOwner(s, n) == Some(j) <==> AskedPin(s, j) && forall k :: j < k < n ==> !AskedPin(s, k)
  {
    hide AsksPin, AskedPin, BufferOf, KeptBefore;
    AsksIsAsked(s, n - 1);
    OwnerIsBefore(s, n - 1);
    if j < n - 1 {
      OwnerIsLast(s, n - 1, j);
      if AskedPin(s, n - 1) {
        assert PinOwner(s, n) == Some(n - 1);
      } else {
        assert PinOwner(s, n) == PinOwner(s, n - 1);
      }
    }
  }

  /** What is still live after a scan, object by object: the handle and the information of every device
      of another AAGUID, the PIN buffer of every device after which another one was asked for a PIN, the
      `-n` string, and the invocation when a secret was printed. */
  lemma LeftoversExactly(s: Session, before: string, after: string, pending: seq<byte>, live: set<Resource>,
                         r: Resource)
    requires RunOf(s, before, after, pending, live)
    requires ScanFrom(s, 0).Printed? || ScanFrom(s, 0).Exhausted?
    ensures var n := if ScanFrom(s, 0).Printed? then ScanFrom(s, 0).index + 1 else |s.devices|;
      r in live <==>
        match r
        case TheInvocation => ScanFrom(s, 0).Printed?
        case InvocationPin => s.pin.Some?
        case Handle(_) => r.turn < n && s.aaguid != [] && s.devices[r.turn].aaguid != s.aaguid
        case DeviceInfo(_) => r.turn < n && s.aaguid != [] && s.devices[r.turn].aaguid != s.aaguid
        case PinBuffer(_) => r.turn < n && AskedPin(s, r.turn) && exists k :: r.turn < k < n && AskedPin(s, k)
        case _ => false
  {
    hide ScanFrom, KeptBefore, PinOwner, AskedPin, PendingAt;
    var n := if ScanFrom(s, 0).Printed? then ScanFrom(s, 0).index + 1 else |s.devices|;
    KeptExactly(s, n, r);
    if r.PinBuffer? && r.turn < n {
      OwnerIsLast(s, n, r.turn);
    }
  }
}
