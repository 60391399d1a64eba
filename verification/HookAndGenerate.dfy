/** The boot hook run over `generate` itself: what its exit codes come from. */
module HookAndGenerate {
  import opened Basics
  import opened Console
  import opened Files
  import opened Invocation
  import opened Cryptography
  import opened Authenticator
  import opened EndToEnd
  import opened BootHook
  import opened BootHookRuns

  /** What the calls of `generate` find: the keyfiles, the path of the passphrase file, and at each call
      what is on standard input and which devices are connected. */
  datatype Machine = Machine(
    crypto: Crypto,
    keyfiles: FileSystem,
    passphrasePath: CStr,
    memory: nat,
    terminal: Terminal,
    pending: nat -> seq<byte>,
    devices: nat -> seq<Device>)

  function HookCommand(m: Machine, keyfile: CStr): CommandLine {
    CommandLine(Some(Ascii("generate")), [FileOpt(keyfile), PassphraseFileOpt(m.passphrasePath)], 0)
  }

  /** The exit status of the `k`-th call. */
  ghost function Status(m: Machine, s: Setup, calls: seq<Call>, k: nat): Outcome<nat>
    requires Lawful(m.crypto) && k < |calls| && calls[k].entry < |s.entries|
  {
    var keyfile := s.entries[calls[k].entry].path;
    HookPassphraseArrives(keyfile, m.passphrasePath, calls[k].file, m.keyfiles, m.memory, m.terminal, m.pending(k));
    GenerateStatus(m.crypto, HookCommand(m, keyfile), m.keyfiles[m.passphrasePath := calls[k].file], m.memory,
                   m.terminal, m.pending(k), m.devices(k))
  }

  /** Every code the hook saw is the exit status of that call. */
  ghost predicate CodesAreStatuses(m: Machine, s: Setup, calls: seq<Call>) {
    Lawful(m.crypto)
    && forall k :: 0 <= k < |calls| ==> calls[k].entry < |s.entries| && Status(m, s, calls, k) == Done(calls[k].code)
  }

  /** A call exits 33 exactly when its passphrase can be read from the file, its keyfile can be read, and
      the keyfile does not open under the first 1024 bytes of the passphrase. */
  lemma BadPassphraseCall(m: Machine, s: Setup, calls: seq<Call>, k: nat)
    requires CodesAreStatuses(m, s, calls) && k < |calls|
    requires s.entries[calls[k].entry].path != m.passphrasePath
    ensures calls[k].code == 33 <==>
      var p, keyfile := calls[k].file, s.entries[calls[k].entry].path;
      && 1 <= |p| <= 10485760
      && keyfile in m.keyfiles && 1 <= |m.keyfiles[keyfile]| <= 10485760
      && DoesNotOpen(m.crypto, m.keyfiles[keyfile], StrNDup(p, 1024))
  {
    hide GenerateStatus, Parse, DoesNotOpen, StrNDup;
    var p, keyfile := calls[k].file, s.entries[calls[k].entry].path;
    HookPassphraseArrives(keyfile, m.passphrasePath, p, m.keyfiles, m.memory, m.terminal, m.pending(k));
    RetriedExactly(m.crypto, HookCommand(m, keyfile), m.keyfiles[m.passphrasePath := p], m.memory, m.terminal,
                   m.pending(k), m.devices(k));
    assert Status(m, s, calls, k) == Done(calls[k].code);
  }

  /** The hook asks again for a keyfile exactly when no passphrase is hardcoded, another try is allowed,
      and the keyfile did not open under what was typed. */
  lemma AsksAgainExactly(m: Machine, s: Setup, calls: seq<Call>, k: nat)
    requires IsRun(s, calls) && CodesAreStatuses(m, s, calls) && k + 1 < |calls|
    requires s.entries[calls[k].entry].path != m.passphrasePath
    ensures calls[k + 1].entry == calls[k].entry <==>
      var p, keyfile := calls[k].passphrase, s.entries[calls[k].entry].path;
      && s.hardcoded.None? && Allowed(s, calls[k].attempt + 1)
      && 1 <= |p| <= 10485760
      && keyfile in m.keyfiles && 1 <= |m.keyfiles[keyfile]| <= 10485760
      && DoesNotOpen(m.crypto, m.keyfiles[keyfile], StrNDup(p, 1024))
  {
    hide DoesNotOpen, StrNDup, IsRun, Status, Allowed;
    RetryOnlyAfterBadPassphrase(s, calls, k);
    PromptingTrace(s, calls, k);
    BadPassphraseCall(m, s, calls, k);
  }
}
