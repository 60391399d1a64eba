/** What a scan over the connected devices means, device by device, apart from how it is run. */
module Scan {
  import opened Basics
  import opened Console
  import opened Invocation
  import opened Authenticator

  /** What the scan works from: the request, the AAGUID the keyfile stores, where PINs come from,
      and the devices in the order they are listed. */
  datatype Session = Session(
    request: Request,
    aaguid: Blob,
    pin: Option<CStr>,
    terminal: Terminal,
    pending: seq<byte>,
    devices: seq<Device>)

  predicate Matches(s: Session, d: Device) {
    s.aaguid == [] || d.aaguid == s.aaguid
  }

  /** The devices a PIN is fetched for. */
  predicate AsksPin(s: Session, d: Device) {
    Matches(s, d) && HMAC_SECRET in d.extensions && d.hasPin
  }

  /** Standard input when the scan comes to the `i`-th device. */
  function PendingAt(s: Session, i: nat): seq<byte>
    requires i <= |s.devices|
  {
    if i == 0 then s.pending
    else
      var before := PendingAt(s, i - 1);
      if !AsksPin(s, s.devices[i - 1]) then before
      else match PinFrom(s.pin, s.terminal, before)
        case Done(Prompted(_, rest)) => rest
        case _ => before
  }

  /** The PIN left in the shared parameters when the scan comes to the `i`-th device. */
  function PinAt(s: Session, i: nat): Option<CStr>
    requires i <= |s.devices|
  {
    if i == 0 then None
    else if !AsksPin(s, s.devices[i - 1]) then PinAt(s, i - 1)
    else match PinFrom(s.pin, s.terminal, PendingAt(s, i - 1))
      case Done(Prompted(pin, _)) => Some(pin)
      case _ => PinAt(s, i - 1)
  }

  datatype Verdict =
    | Skipped
    | Failed(result: Fido)
    | Answered(secret: Blob)
    | Fatal(code: nat)
    | Trapped

  predicate Passes(v: Verdict) { v.Skipped? || v.Failed? }

  /** What comes after `free_parameters`. */
  function AfterFreeing(request: Request, v: Verdict): Verdict {
    if Freeable(request) then v else Trapped
  }

  /** `get_secret_from_authenticator_params`; a refused request and a fatal result free the
      parameters before the process ends, an empty secret and the two bug exits do not. */
  function Fetched(d: Device, request: Request, pin: Option<CStr>): Verdict {
    if request.credentialId == [] || request.salt == [] then Fatal(EXIT_PROGRAMMER_ERROR)
    else if !d.accepts(request) then AfterFreeing(request, Fatal(EXIT_AUTHENTICATOR_ERROR))
    else
      var reply := d.getAssertion(request, pin);
      if Retryable(reply.result) then Failed(reply.result)
      else if reply.result != FidoOk then AfterFreeing(request, Fatal(EXIT_AUTHENTICATOR_ERROR))
      else if reply.bytes == [] then Fatal(EXIT_AUTHENTICATOR_ERROR)
      else Answered(reply.bytes)
  }

  /** The same and what its caller does: the parameters are freed after a secret was printed. */
  function Asked(d: Device, request: Request, pin: Option<CStr>): Verdict {
    var v := Fetched(d, request, pin);
    if v.Answered? then AfterFreeing(request, v) else v
  }

  function VerdictAt(s: Session, i: nat): Verdict
    requires i < |s.devices|
  {
    var d := s.devices[i];
    if !Reachable(d) then Fatal(EXIT_AUTHENTICATOR_ERROR)
    else if !Matches(s, d) || HMAC_SECRET !in d.extensions then Skipped
    else if !d.hasPin then Asked(d, s.request, PinAt(s, i))
    else match PinFrom(s.pin, s.terminal, PendingAt(s, i))
      case Exit(code) => Fatal(code)
      case Undefined => Trapped
      case Done(Prompted(pin, _)) => if pin == [] then Skipped else Asked(d, s.request, Some(pin))
  }

  datatype ScanResult =
    | Printed(index: nat, secret: Blob)
    | Exhausted
    | Ended(code: nat)
    | Lost

  /** The scan from the `i`-th device on; after the last one the parameters are freed. */
  function ScanFrom(s: Session, i: nat): (r: ScanResult)
    requires i <= |s.devices|
    ensures r.Printed? ==> i <= r.index < |s.devices|
    decreases |s.devices| - i
  {
    if i == |s.devices| then if Freeable(s.request) then Exhausted else Lost
    else match VerdictAt(s, i)
      case Skipped => ScanFrom(s, i + 1)
      case Failed(_) => ScanFrom(s, i + 1)
      case Answered(secret) => Printed(i, secret)
      case Fatal(code) => Ended(code)
      case Trapped => Lost
  }

  ghost predicate AllPass(s: Session, from: nat, to: nat)
    requires to <= |s.devices|
  {
    forall j :: from <= j < to ==> Passes(VerdictAt(s, j))
  }

  /** The first device that does not pass decides the scan: its secret is printed exactly when it
      answers, the process ends with its code exactly when it fails fatally, and the list is
      exhausted exactly when every device passes and the parameters can be freed. */
  lemma {:induction false} FirstMatch(s: Session, i: nat)
    requires i <= |s.devices|
    ensures forall k: nat, secret :: ScanFrom(s, i) == Printed(k, secret) <==>
      i <= k < |s.devices| && VerdictAt(s, k) == Answered(secret) && AllPass(s, i, k)
    ensures forall code :: ScanFrom(s, i) == Ended(code) <==>
      exists k :: i <= k < |s.devices| && VerdictAt(s, k) == Fatal(code) && AllPass(s, i, k)
    ensures ScanFrom(s, i) == Exhausted <==> AllPass(s, i, |s.devices|) && Freeable(s.request)
    ensures ScanFrom(s, i) == Lost <==>
      || (AllPass(s, i, |s.devices|) && !Freeable(s.request))
      || exists k :: i <= k < |s.devices| && VerdictAt(s, k) == Trapped && AllPass(s, i, k)
    decreases |s.devices| - i
  {
    hide VerdictAt;
    if i < |s.devices| && Passes(VerdictAt(s, i)) {
      FirstMatch(s, i + 1);
      forall k | i < k <= |s.devices|
        ensures AllPass(s, i, k) <==> AllPass(s, i + 1, k)
      {
      }
    } else if i < |s.devices| {
      assert AllPass(s, i, i);
    }
  }
}
