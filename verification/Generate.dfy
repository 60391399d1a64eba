/** Generation: the run over the devices, with everything it allocates, opens, prints and frees. */
module Generate {
  import opened Basics
  import opened Console
  import opened Files
  import opened Invocation
  import opened Cbor
  import opened CborStore
  import opened KeyfileFormat
  import opened KeyfileCodec
  import opened Cryptography
  import opened Authenticator
  import opened Sealing
  import opened Scan
  import Hex

  /** The heap objects and device handles of a run; a numbered one belongs to that turn of the scan.
      A struct stands for its fields too where the function that frees it frees them all, which
      `free_invocation` does not: the string of a `-n` option is an object of its own. */
  datatype Resource =
    | TheInvocation
    | InvocationPin
    | TheFile
    | TheCleartext
    | TheKeySpec
    | TheKey
    | TheParameters
    | PinBuffer(turn: nat)
    | PromptString(turn: nat)
    | Handle(turn: nat)
    | DeviceInfo(turn: nat)
    | SecretStruct(turn: nat)
    | SecretBytes(turn: nat)

  /** What is live and what has been printed.  Nothing can be released that is not live, so no run
      releases anything twice. */
  class World {
    var live: set<Resource>
    var stdout: string

    constructor (live: set<Resource>)
      ensures this.live == live && stdout == ""
    {
      this.live, stdout := live, "";
    }

    method Acquire(r: Resource)
      requires r !in live
      modifies `live
      ensures live == old(live) + {r}
    {
      live := live + {r};
    }

    method Release(r: Resource)
      requires r in live
      modifies `live
      ensures live == old(live) - {r}
    {
      live := live - {r};
    }

    /** The hex loop and the newline after it. */
    method PrintSecret(secret: Blob)
      modifies `stdout
      ensures stdout == old(stdout) + Hex.OfBytes(secret) + "\n"
    {
      for j := 0 to |secret|
        invariant stdout == old(stdout) + Hex.OfBytes(secret[..j])
      {
        assert secret[..j + 1][..j] == secret[..j];
        stdout := stdout + Hex.OfByte(secret[j]);
      }
      assert secret[..|secret|] == secret;
      stdout := stdout + "\n";
    }
  }

  // ---------------------------------------------------------------- what stays allocated

  /** What the turn of a passed device leaves behind: both objects of a device that does not match,
      and the PIN buffer of one that asked. */
  function Kept(s: Session, i: nat): set<Resource>
    requires i < |s.devices|
  {
    if !Matches(s, s.devices[i]) then {Handle(i), DeviceInfo(i)}
    else if AsksPin(s, s.devices[i]) then {PinBuffer(i)}
    else {}
  }

  function KeptBefore(s: Session, i: nat): (kept: set<Resource>)
    requires i <= |s.devices|
    ensures forall r :: r in kept ==> (r.Handle? || r.DeviceInfo? || r.PinBuffer?) && r.turn < i
  {
    if i == 0 then {} else KeptBefore(s, i - 1) + Kept(s, i - 1)
  }

  /** The string of a `-n` option, which nothing frees. */
  function GivenPin(pin: Option<CStr>): set<Resource> {
    if pin.Some? then {InvocationPin} else {}
  }

  /** The turn whose buffer holds the PIN of the parameters. */
  function PinOwner(s: Session, i: nat): (owner: Option<nat>)
    requires i <= |s.devices|
    ensures BufferOf(owner) <= KeptBefore(s, i)
  {
    if i == 0 then None else if AsksPin(s, s.devices[i - 1]) then Some(i - 1) else PinOwner(s, i - 1)
  }

  function BufferOf(owner: Option<nat>): set<Resource> {
    if owner.Some? then {PinBuffer(owner.value)} else {}
  }

  /** What is live at the head of every turn. */
  function LiveAt(s: Session, i: nat): set<Resource>
    requires i <= |s.devices|
  {
    {TheInvocation, TheCleartext, TheParameters} + GivenPin(s.pin) + KeptBefore(s, i)
  }

  /** What is live once the parameters and the cleartext are freed before the `i`-th turn. */
  function LeftAt(s: Session, i: nat): set<Resource>
    requires i <= |s.devices|
  {
    {TheInvocation} + GivenPin(s.pin) + KeptBefore(s, i) - BufferOf(PinOwner(s, i))
  }

  // ---------------------------------------------------------------- one device

  /** `get_device` and `get_device_info` */
  method OpenDevice(world: World, turn: nat)
    requires world.live !! {Handle(turn), DeviceInfo(turn)}
    modifies world`live
    ensures world.live == old(world.live) + {Handle(turn), DeviceInfo(turn)}
  {
    world.Acquire(Handle(turn));
    world.Acquire(DeviceInfo(turn));
  }

  /** `close_and_free_device_ignoring_errors` and `free_device_info` */
  method CloseDevice(world: World, turn: nat)
    requires {Handle(turn), DeviceInfo(turn)} <= world.live
    modifies world`live
    ensures world.live == old(world.live) - {Handle(turn), DeviceInfo(turn)}
  {
    world.Release(Handle(turn));
    world.Release(DeviceInfo(turn));
  }

  /** `free_parameters`, which zeroes 32 bytes of the relying party ID before it frees it. */
  method FreeParameters(world: World, params: Parameters, owner: Option<nat>) returns (o: Outcome<()>)
    requires {TheParameters} + BufferOf(owner) <= world.live
    modifies world`live
    ensures o == if Freeable(params.Value()) then Done(()) else Undefined
    ensures o.Done? ==> world.live == old(world.live) - BufferOf(owner) - {TheParameters}
  {
    if RELYING_PARTY_ID_SIZE > |params.relyingPartyId| + 1 {
      return Undefined;
    }
    if owner.Some? {
      world.Release(PinBuffer(owner.value));
    }
    world.Release(TheParameters);
    return Done(());
  }

  /** `get_secret_from_authenticator_params`: a retryable failure leaves everything to the caller, a
      fatal one closes the device before the process ends, and frees the parameters unless the
      request was incomplete or the secret is empty. */
  method GetSecret(world: World, d: Device, params: Parameters, owner: Option<nat>, turn: nat)
    returns (o: Outcome<(Fido, Blob)>)
    requires {TheParameters, Handle(turn)} + BufferOf(owner) <= world.live && SecretBytes(turn) !in world.live
    modifies world`live
    ensures var request, pin := params.Value(), params.authenticatorPin;
      match Fetched(d, request, pin)
      case Answered(secret) => o == Done((FidoOk, secret)) && world.live == old(world.live) + {SecretBytes(turn)}
      case Failed(result) => o == Done((result, [])) && result != FidoOk && world.live == old(world.live)
      case Fatal(code) =>
        && o == Exit(code)
        && world.live == old(world.live) - {Handle(turn)}
             - if request.credentialId != [] && request.salt != []
                  && (!d.accepts(request) || !d.getAssertion(request, pin).result.FidoOk?)
               then {TheParameters} + BufferOf(owner) else {}
      case Trapped => o.Undefined?
      case Skipped => false
  {
    var request := Request(params.relyingPartyId, params.clientDataHash[..], params.credentialId, params.salt[..]);
    if |params.credentialId| < 1 || params.salt.Length < 1 {
      world.Release(Handle(turn));
      return Exit(EXIT_PROGRAMMER_ERROR);
    }
    if !d.accepts(request) {
      var freed := FreeParameters(world, params, owner);
      if freed.Undefined? {
        return Undefined;
      }
      world.Release(Handle(turn));
      return Exit(EXIT_AUTHENTICATOR_ERROR);
    }
    var reply := d.getAssertion(request, params.authenticatorPin);
    if reply.result != FidoOk {
      if Retryable(reply.result) {
        return Done((reply.result, []));
      }
      var freed := FreeParameters(world, params, owner);
      if freed.Undefined? {
        return Undefined;
      }
      world.Release(Handle(turn));
      return Exit(EXIT_AUTHENTICATOR_ERROR);
    }
    if |reply.bytes| < 1 {
      world.Release(Handle(turn));
      return Exit(EXIT_AUTHENTICATOR_ERROR);
    }
    world.Acquire(SecretBytes(turn));
    return Done((FidoOk, reply.bytes));
  }

  /** `free_secret` */
  method FreeSecret(world: World, turn: nat, filled: bool)
    requires SecretStruct(turn) in world.live && (filled ==> SecretBytes(turn) in world.live)
    modifies world`live
    ensures world.live == old(world.live) - {SecretStruct(turn)} - if filled then {SecretBytes(turn)} else {}
  {
    if filled {
      world.Release(SecretBytes(turn));
    }
    world.Release(SecretStruct(turn));
  }

  /** The second half of a turn, for a device that may be asked: the secret is printed and everything
      freed, or the device is closed and the scan goes on. */
  method AskDevice(world: World, d: Device, params: Parameters, owner: Option<nat>, turn: nat,
                   ghost live: set<Resource>)
    returns (o: Outcome<bool>)
    requires world.live == live + {Handle(turn), DeviceInfo(turn)}
    requires {TheCleartext, TheParameters} + BufferOf(owner) <= live
    requires live !! {Handle(turn), DeviceInfo(turn), SecretStruct(turn), SecretBytes(turn)}
    modifies world
    ensures match Asked(d, params.Value(), params.authenticatorPin)
      case Answered(secret) =>
        && o == Done(true) && world.stdout == old(world.stdout) + Hex.OfBytes(secret) + "\n"
        && world.live == live - {TheCleartext, TheParameters} - BufferOf(owner)
      case Failed(_) => o == Done(false) && world.live == live && world.stdout == old(world.stdout)
      case Fatal(code) => o == Exit(code) && world.stdout == old(world.stdout)
      case Trapped => o.Undefined?
      case Skipped => false
  {
    hide Fetched;
    world.Acquire(SecretStruct(turn));
    var result := GetSecret(world, d, params, owner, turn);
    match result {
      case Exit(code) => return Exit(code);
      case Undefined => return Undefined;
      case Done(_) =>
    }
    CloseDevice(world, turn);
    if result.value.0 == FidoOk {
      world.PrintSecret(result.value.1);
      var freed := FreeParameters(world, params, owner);
      if freed.Undefined? {
        return Undefined;
      }
      world.Release(TheCleartext);
      FreeSecret(world, turn, true);
      return Done(true);
    }
    FreeSecret(world, turn, false);
    return Done(false);
  }

  /** The resources of a turn are new to it, and freeing the shared ones leaves the rest. */
  lemma LiveResources(s: Session, i: nat)
    requires i <= |s.devices|
    ensures {TheInvocation, TheCleartext, TheParameters} + BufferOf(PinOwner(s, i)) <= LiveAt(s, i)
    ensures LiveAt(s, i) - {TheCleartext, TheParameters} - BufferOf(PinOwner(s, i)) == LeftAt(s, i)
    ensures LiveAt(s, i) - {TheInvocation} - BufferOf(PinOwner(s, i)) - {TheParameters} - {TheCleartext}
         == LeftAt(s, i) - {TheInvocation}
    ensures LiveAt(s, i) !! {Handle(i), DeviceInfo(i), SecretStruct(i), SecretBytes(i), PinBuffer(i), PromptString(i)}
    ensures i > 0 && Matches(s, s.devices[i - 1]) ==>
      LiveAt(s, i) !! {Handle(i - 1), DeviceInfo(i - 1), SecretStruct(i - 1), SecretBytes(i - 1)}
  {
    hide KeptBefore, PinOwner, Matches, AsksPin;
    if i > 0 {
      KeptStep(s, i - 1);
    }
  }

  lemma KeptStep(s: Session, i: nat)
    requires i < |s.devices|
    ensures KeptBefore(s, i + 1) == KeptBefore(s, i) + Kept(s, i)
  {
  }

  lemma AtStart(s: Session)
    ensures PendingAt(s, 0) == s.pending && PinAt(s, 0).None? && PinOwner(s, 0).None?
    ensures LiveAt(s, 0) == {TheInvocation, TheCleartext, TheParameters} + GivenPin(s.pin)
  {
  }

  lemma AfterTurn(s: Session, i: nat)
    requires i < |s.devices|
    ensures LiveAt(s, i + 1) == LiveAt(s, i) + Kept(s, i)
    ensures !AsksPin(s, s.devices[i]) ==>
      PendingAt(s, i + 1) == PendingAt(s, i) && PinAt(s, i + 1) == PinAt(s, i) && PinOwner(s, i + 1) == PinOwner(s, i)
    ensures AsksPin(s, s.devices[i]) ==> PinOwner(s, i + 1) == Some(i)
    ensures AsksPin(s, s.devices[i]) ==>
      match PinFrom(s.pin, s.terminal, PendingAt(s, i))
      case Done(Prompted(pin, rest)) => PendingAt(s, i + 1) == rest && PinAt(s, i + 1) == Some(pin)
      case _ => true
  {
    hide PinFrom, Matches, AsksPin;
  }

  /** Fetching a device's PIN into a new buffer; the buffer of an earlier device is forgotten. */
  method FetchPin(world: World, stdin: Stdin, pinOption: Option<CStr>, params: Parameters, turn: nat)
    returns (o: Outcome<()>)
    requires PinBuffer(turn) !in world.live && PromptString(turn) !in world.live
    modifies world`live, stdin, params`authenticatorPin
    ensures match PinFrom(pinOption, stdin.terminal, old(stdin.pending))
      case Done(Prompted(pin, rest)) =>
        && o == Done(()) && params.authenticatorPin == Some(pin) && stdin.pending == rest
        && world.live == old(world.live) + {PinBuffer(turn)}
      case Exit(code) => o == Exit(code)
      case Undefined => o.Undefined?
  {
    hide PinFrom;
    world.Acquire(PinBuffer(turn));
    world.Acquire(PromptString(turn));
    var pin := ObtainPin(pinOption, stdin);
    match pin {
      case Exit(code) => return Exit(code);
      case Undefined => return Undefined;
      case Done(_) =>
    }
    params.authenticatorPin := Some(pin.value);
    world.Release(PromptString(turn));
    return Done(());
  }

  /** The PIN part of a turn: a device without a PIN needs none, and one that gets an empty PIN is
      closed. */
  method PrepareToAsk(world: World, stdin: Stdin, pinOption: Option<CStr>, params: Parameters, d: Device,
                      owner: Option<nat>, turn: nat)
    returns (o: Outcome<bool>, newOwner: Option<nat>)
    requires {Handle(turn), DeviceInfo(turn)} <= world.live
    requires PinBuffer(turn) !in world.live && PromptString(turn) !in world.live
    modifies world`live, stdin, params`authenticatorPin
    ensures !d.hasPin ==>
      && o == Done(true) && newOwner == owner && world.live == old(world.live)
      && stdin.pending == old(stdin.pending) && params.authenticatorPin == old(params.authenticatorPin)
    ensures d.hasPin ==>
      match PinFrom(pinOption, stdin.terminal, old(stdin.pending))
      case Done(Prompted(pin, rest)) =>
        && o == Done(pin != []) && newOwner == Some(turn)
        && stdin.pending == rest && params.authenticatorPin == Some(pin)
        && world.live == old(world.live) + {PinBuffer(turn)}
             - if pin == [] then {Handle(turn), DeviceInfo(turn)} else {}
      case Exit(code) => o == Exit(code)
      case Undefined => o.Undefined?
  {
    hide PinFrom;
    if !d.hasPin {
      return Done(true), owner;
    }
    var fetched := FetchPin(world, stdin, pinOption, params, turn);
    match fetched {
      case Exit(code) => return Exit(code), owner;
      case Undefined => return Undefined, owner;
      case Done(_) =>
    }
    if |params.authenticatorPin.value| == 0 {
      CloseDevice(world, turn);
      return Done(false), Some(turn);
    }
    return Done(true), Some(turn);
  }

  /** The verdict on a device that may be asked. */
  lemma AskedVerdict(s: Session, i: nat)
    requires i < |s.devices| && Reachable(s.devices[i]) && Matches(s, s.devices[i])
    requires HMAC_SECRET in s.devices[i].extensions
    ensures var d := s.devices[i];
      && (AsksPin(s, d) <==> d.hasPin)
      && VerdictAt(s, i) == if !d.hasPin then Asked(d, s.request, PinAt(s, i)) else
         match PinFrom(s.pin, s.terminal, PendingAt(s, i))
         case Exit(code) => Fatal(code)
         case Undefined => Trapped
         case Done(Prompted(pin, _)) => if pin == [] then Skipped else Asked(d, s.request, Some(pin))
  {
    hide Asked, PinFrom, PendingAt, PinAt;
  }

  /** How a turn ends, and what it prints, reads and leaves live. */
  ghost predicate TurnOf(s: Session, turn: nat, o: Outcome<bool>, before: string, after: string, pending: seq<byte>,
                         live: set<Resource>)
    requires turn < |s.devices|
  {
    match VerdictAt(s, turn)
    case Answered(secret) =>
      && o == Done(true) && after == before + Hex.OfBytes(secret) + "\n"
      && live == LeftAt(s, turn + 1) && pending == PendingAt(s, turn + 1)
    case Fatal(code) => o == Exit(code) && after == before
    case Trapped => o.Undefined?
    case _ =>
      && o == Done(false) && after == before
      && live == LiveAt(s, turn + 1) && pending == PendingAt(s, turn + 1)
  }

  /** A turn's second half, for a device that matches and supports hmac-secret. */
  method AskForSecret(world: World, stdin: Stdin, pinOption: Option<CStr>, params: Parameters, d: Device,
                      owner: Option<nat>, turn: nat, ghost s: Session)
    returns (o: Outcome<bool>, newOwner: Option<nat>)
    requires turn < |s.devices| && d == s.devices[turn] && pinOption == s.pin
    requires Reachable(d) && Matches(s, d) && HMAC_SECRET in d.extensions
    requires params.Value() == s.request && params.authenticatorPin == PinAt(s, turn)
    requires stdin.terminal == s.terminal && stdin.pending == PendingAt(s, turn)
    requires owner == PinOwner(s, turn) && world.live == LiveAt(s, turn) + {Handle(turn), DeviceInfo(turn)}
    modifies world, stdin, params`authenticatorPin
    ensures TurnOf(s, turn, o, old(world.stdout), world.stdout, stdin.pending, world.live)
    ensures o == Done(false) ==> params.authenticatorPin == PinAt(s, turn + 1) && newOwner == PinOwner(s, turn + 1)
  {
    hide Asked, PinFrom, PendingAt, PinAt, PinOwner, KeptBefore, LiveAt, LeftAt, BufferOf;
    hide VerdictAt, AsksPin, Matches, Reachable, Hex.OfBytes;
    AskedVerdict(s, turn);
    AfterTurn(s, turn);
    LiveResources(s, turn);
    LiveResources(s, turn + 1);
    o, newOwner := PrepareToAsk(world, stdin, pinOption, params, d, owner, turn);
    if o == Done(true) {
      o := AskDevice(world, d, params, newOwner, turn, LiveAt(s, turn + 1));
    }
  }

  /** One turn of the scan. */
  method TryDevice(world: World, stdin: Stdin, pinOption: Option<CStr>, clear: ClearRecord, params: Parameters,
                   d: Device, owner: Option<nat>, turn: nat, ghost s: Session)
    returns (o: Outcome<bool>, newOwner: Option<nat>)
    requires turn < |s.devices| && d == s.devices[turn] && pinOption == s.pin && clear.deviceAaguid == s.aaguid
    requires params.Value() == s.request && params.authenticatorPin == PinAt(s, turn)
    requires stdin.terminal == s.terminal && stdin.pending == PendingAt(s, turn)
    requires owner == PinOwner(s, turn) && world.live == LiveAt(s, turn)
    modifies world, stdin, params`authenticatorPin
    ensures TurnOf(s, turn, o, old(world.stdout), world.stdout, stdin.pending, world.live)
    ensures o == Done(false) ==> params.authenticatorPin == PinAt(s, turn + 1) && newOwner == PinOwner(s, turn + 1)
  {
    hide Asked, PinFrom, PendingAt, PinAt, PinOwner, KeptBefore, LiveAt, LeftAt, BufferOf;
    AfterTurn(s, turn);
    LiveResources(s, turn);
    if !Reachable(d) {
      return Exit(EXIT_AUTHENTICATOR_ERROR), owner;
    }
    OpenDevice(world, turn);
    var matches := DeviceAaguidMatches(clear.deviceAaguid, d.aaguid);
    if !matches {
      return Done(false), owner;
    }
    var supported := DeviceSupportsHmacSecret(d.extensions);
    if !supported {
      CloseDevice(world, turn);
      return Done(false), owner;
    }
    o, newOwner := AskForSecret(world, stdin, pinOption, params, d, owner, turn, s);
  }

  // ---------------------------------------------------------------- the scan

  /** The code `print_secret_consuming_invocation` returns. */
  function ReturnCode(s: Session): Outcome<nat> {
    match ScanFrom(s, 0)
    case Printed(_, _) => Done(EXIT_SUCCESS)
    case Exhausted => Done(if |s.devices| > 0 then EXIT_NO_VALID_AUTHENTICATOR else EXIT_NO_DEVICES)
    case Ended(code) => Exit(code)
    case Lost => Undefined
  }

  /** What a whole scan prints, reads and leaves live.  A normal return has freed the parameters and
      the cleartext, and the invocation too unless a secret was printed, but never the `-n` string. */
  ghost predicate RunOf(s: Session, before: string, after: string, pending: seq<byte>, live: set<Resource>) {
    match ScanFrom(s, 0)
    case Printed(i, secret) =>
      && after == before + Hex.OfBytes(secret) + "\n"
      && pending == PendingAt(s, i + 1)
      && live == LeftAt(s, i + 1)
    case Exhausted =>
      && after == before
      && pending == PendingAt(s, |s.devices|)
      && live == LeftAt(s, |s.devices|) - {TheInvocation}
    case Ended(_) => after == before
    case Lost => true
  }

  /** The device loop and what follows it. */
  method ScanDevices(world: World, stdin: Stdin, pinOption: Option<CStr>, clear: ClearRecord, params: Parameters,
                     devices: seq<Device>)
    returns (o: Outcome<nat>)
    requires params.authenticatorPin.None?
    requires world.live == {TheInvocation, TheCleartext, TheParameters} + GivenPin(pinOption)
    modifies world, stdin, params`authenticatorPin
    ensures var s := Session(old(params.Value()), clear.deviceAaguid, pinOption, stdin.terminal, old(stdin.pending),
                             devices);
      o == ReturnCode(s) && RunOf(s, old(world.stdout), world.stdout, stdin.pending, world.live)
  {
    hide VerdictAt, KeptBefore, PendingAt, PinAt, PinOwner, LiveAt, LeftAt;
    ghost var s := Session(params.Value(), clear.deviceAaguid, pinOption, stdin.terminal, stdin.pending, devices);
    var owner: Option<nat> := None;
    AtStart(s);
    for i := 0 to |devices|
      invariant ScanFrom(s, 0) == ScanFrom(s, i)
      invariant world.stdout == old(world.stdout)
      invariant params.Value() == s.request && params.authenticatorPin == PinAt(s, i)
      invariant stdin.pending == PendingAt(s, i)
      invariant owner == PinOwner(s, i) && world.live == LiveAt(s, i)
    {
      var turn;
      turn, owner := TryDevice(world, stdin, pinOption, clear, params, devices[i], owner, i, s);
      match turn {
        case Exit(code) => return Exit(code);
        case Undefined => return Undefined;
        case Done(printed) =>
          if printed {
            return Done(EXIT_SUCCESS);
          }
      }
    }
    LiveResources(s, |devices|);
    world.Release(TheInvocation);
    var freed := FreeParameters(world, params, owner);
    if freed.Undefined? {
      return Undefined;
    }
    world.Release(TheCleartext);
    if |devices| > 0 {
      return Done(EXIT_NO_VALID_AUTHENTICATOR);
    }
    return Done(EXIT_NO_DEVICES);
  }

  // ---------------------------------------------------------------- the whole command

  datatype Recovery = Recovery(aaguid: Blob, request: Request)

  /** From the bytes of a keyfile to the request for the devices. */
  function FromKeyfile(crypto: Crypto, data: seq<byte>, passphrase: CStr, mixin: Option<CStr>): Outcome<Recovery>
    requires Lawful(crypto)
  {
    match LoadClear(data)
    case Exit(code) => Exit(code)
    case Undefined => Undefined
    case Done(Read(r, _)) =>
      match Derived(crypto, SpecFrom(passphrase, r))
      case Exit(code) => Exit(code)
      case Undefined => Undefined
      case Done(key) =>
        match Unsealed(crypto, r, key, mixin)
        case Exit(code) => Exit(code)
        case Undefined => Undefined
        case Done(request) => Done(Recovery(r.deviceAaguid, request))
  }

  function FromFile(crypto: Crypto, f: Fields, files: FileSystem): Outcome<Recovery>
    requires Lawful(crypto) && f.file.Some? && f.passphrase.Some?
  {
    match ReadFile(files, f.file.value)
    case Exit(code) => Exit(code)
    case Undefined => Undefined
    case Done(data) => FromKeyfile(crypto, data, f.passphrase.value, f.mixin)
  }

  method ReadKeyfile(world: World, store: Store, files: FileSystem, path: CStr) returns (o: Outcome<ClearRecord>)
    requires store.Valid() && TheFile !in world.live && TheCleartext !in world.live
    modifies world`live, store
    ensures store.next >= old(store.next)
    ensures match ReadFile(files, path)
      case Exit(code) => o == Exit(code)
      case Undefined => o.Undefined?
      case Done(data) =>
        match LoadClear(data)
        case Exit(code) => o == Exit(code)
        case Undefined => o.Undefined?
        case Done(Read(r, _)) =>
          && o.Done? && fresh(o.value) && o.value.Value() == r && store.cells == old(store.cells)
          && world.live == old(world.live) + {TheCleartext}
  {
    hide LoadClear;
    var f := ReadFile(files, path);
    if f.Exit? {
      return Exit(f.code);
    }
    world.Acquire(TheFile);
    o := LoadCleartext(store, f.value);
    if !o.Done? {
      return;
    }
    world.Acquire(TheCleartext);
    world.Release(TheFile);
  }

  method KeyFor(world: World, crypto: Crypto, passphrase: CStr, clear: ClearRecord) returns (o: Outcome<Blob>)
    requires TheKeySpec !in world.live && TheKey !in world.live
    modifies world`live
    ensures o == Derived(crypto, SpecFrom(passphrase, clear.Value()))
    ensures o.Done? ==> world.live == old(world.live) + {TheKey}
  {
    hide Derived;
    var spec := MakeKeySpecFromCleartext(passphrase, clear);
    world.Acquire(TheKeySpec);
    o := DeriveKey(crypto, spec);
    if !o.Done? {
      return;
    }
    world.Acquire(TheKey);
    world.Release(TheKeySpec);
  }

  /** The part before the scan: every helper object is freed by the end of it. */
  method RecoverParameters(world: World, store: Store, crypto: Crypto, invocation: InvocationState, files: FileSystem)
    returns (o: Outcome<(ClearRecord, Parameters)>)
    requires Lawful(crypto) && invocation.file.Some? && invocation.passphrase.Some?
    requires store.Valid() && world.live == {TheInvocation} + GivenPin(invocation.authenticatorPin)
    modifies world`live, store
    ensures match FromFile(crypto, invocation.Value(), files)
      case Exit(code) => o == Exit(code)
      case Undefined => o.Undefined?
      case Done(Recovery(aaguid, request)) =>
        && o.Done? && fresh(o.value.0) && fresh(o.value.1) && fresh(o.value.1.salt) && fresh(o.value.1.clientDataHash)
        && o.value.0.deviceAaguid == aaguid && o.value.1.Value() == request && o.value.1.authenticatorPin.None?
        && world.live == old(world.live) + {TheCleartext, TheParameters} && store.cells == old(store.cells)
  {
    hide LoadClear, Derived, Unsealed;
    var loaded := ReadKeyfile(world, store, files, invocation.file.value);
    match loaded {
      case Exit(code) => return Exit(code);
      case Undefined => return Undefined;
      case Done(_) =>
    }
    var clear := loaded.value;
    var key := KeyFor(world, crypto, invocation.passphrase.value, clear);
    if key.Exit? {
      return Exit(key.code);
    }
    var built := BuildParameters(store, crypto, clear, key.value, invocation.mixin);
    match built {
      case Exit(code) => return Exit(code);
      case Undefined => return Undefined;
      case Done(_) =>
    }
    world.Acquire(TheParameters);
    world.Release(TheKey);
    return Done((clear, built.value));
  }

  /** `print_secret_consuming_invocation` */
  method PrintSecretConsumingInvocation(world: World, store: Store, crypto: Crypto, invocation: InvocationState,
                                        files: FileSystem, devices: seq<Device>, stdin: Stdin)
    returns (o: Outcome<nat>)
    requires Lawful(crypto) && invocation.file.Some? && invocation.passphrase.Some?
    requires store.Valid() && world.live == {TheInvocation} + GivenPin(invocation.authenticatorPin)
    modifies world, store, stdin
    ensures match FromFile(crypto, invocation.Value(), files)
      case Exit(code) => o == Exit(code) && world.stdout == old(world.stdout)
      case Undefined => o.Undefined?
      case Done(Recovery(aaguid, request)) =>
        var s := Session(request, aaguid, invocation.authenticatorPin, stdin.terminal, old(stdin.pending), devices);
        && o == ReturnCode(s)
        && RunOf(s, old(world.stdout), world.stdout, stdin.pending, world.live)
        && store.cells == old(store.cells)
  {
    hide FromFile, RunOf, ReturnCode;
    var recovered := RecoverParameters(world, store, crypto, invocation, files);
    match recovered {
      case Exit(code) => return Exit(code);
      case Undefined => return Undefined;
      case Done((clear, params)) =>
        o := ScanDevices(world, stdin, invocation.authenticatorPin, clear, params, devices);
    }
  }
}
