/** Which line of standard input goes to which device, and when the order of devices matters. */
module ScanTheorems {
  import opened Basics
  import opened Console
  import opened Files
  import opened Invocation
  import opened Authenticator
  import opened Scan

  // ---------------------------------------------------------------- PIN lines

  /** The lines, each with its newline. */
  function Lines(lines: seq<CStr>): seq<byte> {
    if lines == [] then [] else lines[0] + [NEWLINE] + Lines(lines[1..])
  }

  /** How many of the first `i` devices ask for a PIN. */
  function Askers(s: Session, i: nat): nat
    requires i <= |s.devices|
  {
    if i == 0 then 0 else Askers(s, i - 1) + if AsksPin(s, s.devices[i - 1]) then 1 else 0
  }

  /** Standard input that holds PIN lines of at most 253 bytes, read off a terminal without `-n`. */
  ghost predicate HoldsPins(s: Session, lines: seq<CStr>, tail: seq<byte>) {
    && s.pin.None? && s.terminal.NotTty?
    && s.pending == Lines(lines) + tail
    && forall k :: 0 <= k < |lines| ==> NEWLINE !in lines[k] && |lines[k]| <= 253
  }

  lemma FirstLine(s: Session, lines: seq<CStr>, k: nat, tail: seq<byte>)
    requires s.pin.None? && s.terminal.NotTty? && k < |lines|
    requires NEWLINE !in lines[k] && |lines[k]| <= 253
    ensures PinFrom(s.pin, s.terminal, Lines(lines[k..]) + tail)
         == Done(Prompted(lines[k], Lines(lines[k + 1..]) + tail))
  {
    var rest := Lines(lines[k + 1..]) + tail;
    assert lines[k..][1..] == lines[k + 1..];
    assert Lines(lines[k..]) + tail == lines[k] + [NEWLINE] + rest;
    PromptLine(s.terminal, lines[k], rest, LONGEST_VALID_PIN);
  }

  /** Before the `i`-th device, exactly one line has gone for each earlier device that asks for a
      PIN; devices that do not match, lack hmac-secret or have no PIN took nothing. */
  lemma {:induction false} OneLinePerAsker(s: Session, lines: seq<CStr>, tail: seq<byte>, i: nat)
    requires HoldsPins(s, lines, tail) && i <= |s.devices| && Askers(s, i) <= |lines|
    ensures PendingAt(s, i) == Lines(lines[Askers(s, i)..]) + tail
  {
    hide Lines, AsksPin, PinFrom;
    if i == 0 {
      assert lines[0..] == lines;
    } else {
      OneLinePerAsker(s, lines, tail, i - 1);
      if AsksPin(s, s.devices[i - 1]) {
        FirstLine(s, lines, Askers(s, i - 1), tail);
      }
    }
  }

  /** The `k`-th line is the PIN of the `k`-th device that asks; an empty line skips its device. */
  lemma PinLineGoesToItsDevice(s: Session, lines: seq<CStr>, tail: seq<byte>, i: nat)
    requires HoldsPins(s, lines, tail) && i < |s.devices|
    requires Reachable(s.devices[i]) && AsksPin(s, s.devices[i]) && Askers(s, i) < |lines|
    ensures var pin := lines[Askers(s, i)];
      VerdictAt(s, i) == if pin == [] then Skipped else Asked(s.devices[i], s.request, Some(pin))
  {
    hide Lines, PinFrom, Asked;
    OneLinePerAsker(s, lines, tail, i);
    FirstLine(s, lines, Askers(s, i), tail);
  }

  /** When the lines run out at the end of input, the next device that asks ends the process. */
  lemma MissingPinLine(s: Session, lines: seq<CStr>, i: nat)
    requires HoldsPins(s, lines, []) && i < |s.devices|
    requires Reachable(s.devices[i]) && AsksPin(s, s.devices[i]) && Askers(s, i) == |lines|
    ensures VerdictAt(s, i) == Fatal(EXIT_UNABLE_TO_GET_USER_SECRET)
  {
    OneLinePerAsker(s, lines, [], i);
    assert lines[|lines|..] == [];
  }

  /** A `generate` that reads its passphrase `p` off a pipe leaves the lines after it to the devices
      exactly when `p` has at most 1022 bytes.  At 1023 it still reads `p`, but its newline stays: an
      empty first line, which moves every PIN on to the next device that asks. */
  lemma PassphraseThenPins(command: CommandLine, files: FileSystem, memory: nat, p: CStr, pins: seq<CStr>,
                           tail: seq<byte>, request: Request, aaguid: Blob, devices: seq<Device>)
    requires NEWLINE !in p && forall k :: 0 <= k < |pins| ==> NEWLINE !in pins[k] && |pins[k]| <= 253
    requires forall opt :: opt in command.options ==> !SameField(PassphraseOpt([]), opt) && !opt.PinOpt?
    requires var o := Parse(command, files, memory, NotTty, p + [NEWLINE] + (Lines(pins) + tail));
      o.Done? && o.value.fields.subcommand == Generate
    ensures
      var Parsed(f, rest) := Parse(command, files, memory, NotTty, p + [NEWLINE] + (Lines(pins) + tail)).value;
      var s := Session(request, aaguid, f.authenticatorPin, NotTty, rest, devices);
      && (HoldsPins(s, pins, tail) <==> |p| <= 1022)
      && (f.passphrase == Some(p) <==> |p| <= 1023)
      && (|p| == 1023 ==> HoldsPins(s, [[]] + pins, tail))
  {
    hide Lines, Declared, FileFails, Prompt;
    var later := Lines(pins) + tail;
    NothingGiven(FirstWord(command.first).value, command.options, files);
    PromptLine(NotTty, p, later, LONGEST_VALID_PASSPHRASE);
    if |p| > 1022 {
      Cut(p, later);
    }
    EmptyLineFirst(pins, tail);
  }

  lemma NothingGiven(subcommand: Subcommand, options: seq<Opt>, files: FileSystem)
    requires forall opt :: opt in options ==> !SameField(PassphraseOpt([]), opt) && !opt.PinOpt?
    ensures Declared(subcommand, options, files).passphrase.None?
    ensures Declared(subcommand, options, files).authenticatorPin.None?
  {
    hide Declared;
    UnwrittenField(subcommand, options, files, PassphraseOpt([]));
    UnwrittenField(subcommand, options, files, PinOpt([]));
  }

  lemma Cut(p: CStr, later: seq<byte>)
    requires |p| > 1022
    ensures p[1023..] + [NEWLINE] + later != later
    ensures |p| == 1023 ==> p[..1023] == p && p[1023..] + [NEWLINE] + later == [NEWLINE] + later
    ensures |p| > 1023 ==> p[..1023] != p
  {
    assert |p[1023..] + [NEWLINE] + later| > |later|;
  }

  lemma EmptyLineFirst(pins: seq<CStr>, tail: seq<byte>)
    ensures Lines([[]] + pins) + tail == [NEWLINE] + (Lines(pins) + tail)
  {
    assert ([[]] + pins)[1..] == pins;
  }

  // ---------------------------------------------------------------- order of devices

  ghost predicate IgnoresPinUnlessSet(d: Device) {
    d.hasPin || forall r: Request, pin: CStr :: d.getAssertion(r, Some(pin)) == d.getAssertion(r, None)
  }

  /** The verdict on a device by itself, when PINs come from `-n`. */
  function OwnVerdict(s: Session, d: Device): Verdict
    requires s.pin.Some?
  {
    if !Reachable(d) then Fatal(EXIT_AUTHENTICATOR_ERROR)
    else if !Matches(s, d) || HMAC_SECRET !in d.extensions then Skipped
    else if !d.hasPin then Asked(d, s.request, None)
    else if s.pin.value == [] then Skipped
    else Asked(d, s.request, s.pin)
  }

  ghost predicate PinByOption(s: Session) {
    && s.pin.Some? && |s.pin.value| < LONGEST_VALID_PIN
    && forall d :: d in s.devices ==> IgnoresPinUnlessSet(d)
  }

  lemma {:induction false} CarriedPin(s: Session, i: nat)
    requires PinByOption(s) && i <= |s.devices|
    ensures PinAt(s, i).None? || PinAt(s, i) == s.pin
  {
    if i > 0 {
      CarriedPin(s, i - 1);
    }
  }

  /** The PIN that earlier devices leave behind changes no verdict. */
  lemma VerdictIsOwn(s: Session, i: nat)
    requires PinByOption(s) && i < |s.devices|
    ensures VerdictAt(s, i) == OwnVerdict(s, s.devices[i])
  {
    hide PinAt, PendingAt;
    CarriedPin(s, i);
    assert s.devices[i] in s.devices;
  }

  /** What a caller sees of a scan: not which device answered, but what was printed. */
  datatype Visible = Prints(secret: Blob) | ReturnsNothing | Exits(code: nat) | IsLost

  function Shown(r: ScanResult): Visible {
    match r
    case Printed(_, secret) => Prints(secret)
    case Exhausted => ReturnsNothing
    case Ended(code) => Exits(code)
    case Lost => IsLost
  }

  function Seen(s: Session): Visible {
    Shown(ScanFrom(s, 0))
  }

  /** What a scan shows that a device decides. */
  function Decides(v: Verdict): Visible
    requires !Passes(v)
  {
    match v
    case Answered(secret) => Prints(secret)
    case Fatal(code) => Exits(code)
    case Trapped => IsLost
  }

  /** What a scan shows that no device decides. */
  function AtEnd(s: Session): Visible {
    if Freeable(s.request) then ReturnsNothing else IsLost
  }

  ghost predicate DecidedBy(s: Session, d: Device, v: Visible)
    requires s.pin.Some?
  {
    !Passes(OwnVerdict(s, d)) && Decides(OwnVerdict(s, d)) == v
  }

  /** All the devices that decide a scan at all decide it alike, be it by a secret, by a fatal code or
      by what C leaves undefined. */
  ghost predicate VerdictsAgree(s: Session)
    requires s.pin.Some?
  {
    forall d, e :: d in s.devices && e in s.devices && !Passes(OwnVerdict(s, d)) && !Passes(OwnVerdict(s, e))
      ==> OwnVerdict(s, d) == OwnVerdict(s, e)
  }

  lemma {:induction false} SeenFrom(s: Session, i: nat)
    requires PinByOption(s) && i <= |s.devices|
    ensures (exists d :: d in s.devices[i..] && DecidedBy(s, d, Shown(ScanFrom(s, i))))
      || (Shown(ScanFrom(s, i)) == AtEnd(s) && forall d :: d in s.devices[i..] ==> Passes(OwnVerdict(s, d)))
    decreases |s.devices| - i
  {
    hide VerdictAt, OwnVerdict;
    if i < |s.devices| {
      VerdictIsOwn(s, i);
      var d := s.devices[i];
      assert s.devices[i..] == [d] + s.devices[i + 1..];
      if Passes(OwnVerdict(s, d)) {
        SeenFrom(s, i + 1);
      } else {
        assert DecidedBy(s, d, Shown(ScanFrom(s, i)));
      }
    }
  }

  lemma SameMembers(a: seq<Device>, b: seq<Device>)
    requires multiset(a) == multiset(b)
    ensures forall d :: d in a <==> d in b
  {
    forall d
      ensures d in a <==> d in b
    {
      assert d in a <==> d in multiset(a);
      assert d in b <==> d in multiset(b);
    }
  }

  lemma OwnVerdictsStay(s: Session, devices: seq<Device>)
    requires s.pin.Some?
    ensures forall d :: OwnVerdict(s.(devices := devices), d) == OwnVerdict(s, d)
  {
  }

  /** With agreeing verdicts the order of the devices cannot be seen. */
  lemma OrderIndependence(s: Session, devices: seq<Device>)
    requires PinByOption(s) && VerdictsAgree(s)
    requires multiset(devices) == multiset(s.devices)
    ensures Seen(s.(devices := devices)) == Seen(s)
  {
    hide OwnVerdict, ScanFrom;
    var t := s.(devices := devices);
    SameMembers(devices, s.devices);
    OwnVerdictsStay(s, devices);
    SeenFrom(s, 0);
    SeenFrom(t, 0);
    assert s.devices[0..] == s.devices && devices[0..] == devices;
  }

  function Fronted(devices: seq<Device>, i: nat): (fronted: seq<Device>)
    requires i < |devices|
    ensures |fronted| == |devices| && fronted[0] == devices[i]
    ensures multiset(fronted) == multiset(devices)
  {
    assert devices == devices[..i] + [devices[i]] + devices[i + 1..];
    [devices[i]] + devices[..i] + devices[i + 1..]
  }

  /** A device that does not pass decides the scan when it is listed first. */
  lemma FrontedDecides(s: Session, d: Device)
    requires PinByOption(s) && d in s.devices && !Passes(OwnVerdict(s, d))
    ensures exists devices ::
      multiset(devices) == multiset(s.devices)
      && Seen(s.(devices := devices)) == Decides(OwnVerdict(s, d))
  {
    hide OwnVerdict, VerdictAt;
    var i :| 0 <= i < |s.devices| && s.devices[i] == d;
    var devices := Fronted(s.devices, i);
    var t := s.(devices := devices);
    SameMembers(devices, s.devices);
    OwnVerdictsStay(s, devices);
    VerdictIsOwn(t, 0);
    assert Seen(t) == Decides(OwnVerdict(s, d));
  }

  /** Agreement of the verdicts is exactly what makes the order invisible. */
  lemma OrderIndependenceExactly(s: Session)
    requires PinByOption(s)
    ensures VerdictsAgree(s) <==>
      forall devices :: multiset(devices) == multiset(s.devices) ==> Seen(s.(devices := devices)) == Seen(s)
  {
    hide OwnVerdict, Seen;
    if VerdictsAgree(s) {
      forall devices | multiset(devices) == multiset(s.devices)
        ensures Seen(s.(devices := devices)) == Seen(s)
      {
        OrderIndependence(s, devices);
      }
    } else {
      var d, e :| d in s.devices && e in s.devices && !Passes(OwnVerdict(s, d)) && !Passes(OwnVerdict(s, e))
                  && OwnVerdict(s, d) != OwnVerdict(s, e);
      FrontedDecides(s, d);
      FrontedDecides(s, e);
    }
  }
}
