/** Key specifications and derived keys.  libsodium's functions are parameters: nothing is assumed
    of them but that opening what was sealed gives the message back. */
module Cryptography {
  import opened Basics
  import opened Invocation
  import opened KeyfileFormat
  import opened KeyfileCodec

  const SALT_BYTES := 16
  const NONCE_BYTES := 24
  const MAC_BYTES := 16

  const OPSLIMIT_INTERACTIVE: uint64 := 2
  const OPSLIMIT_MODERATE: uint64 := 3
  const OPSLIMIT_SENSITIVE: uint64 := 4
  const MEMLIMIT_INTERACTIVE: uint64 := 67108864
  const ALG_ARGON2I13: int32 := 1

  /** `crypto_pwhash`, `crypto_secretbox_easy`, `crypto_secretbox_open_easy` and
      `crypto_generichash`; None is a nonzero return. */
  datatype Crypto = Crypto(
    passwordHash: (CStr, Blob, uint64, uint64, int32) -> Option<Blob>,
    seal: (seq<byte>, Blob, Blob) -> Option<Blob>,
    open: (Blob, Blob, Blob) -> Option<seq<byte>>,
    genericHash: (nat, CStr) -> Option<seq<byte>>)

  /** A sealed message is longer by the MAC, and opens under the same nonce and key; a hash has the
      length asked for. */
  ghost predicate Lawful(c: Crypto) {
    && (forall m: seq<byte>, nonce: Blob, key: Blob :: c.seal(m, nonce, key).Some? ==>
          |c.seal(m, nonce, key).value| == |m| + MAC_BYTES
          && c.open(c.seal(m, nonce, key).value, nonce, key) == Some(m))
    && (forall n: nat, m: CStr :: c.genericHash(n, m).Some? ==> |c.genericHash(n, m).value| == n)
  }

  datatype KeySpec = KeySpec(
    passphrase: CStr,
    kdfSalt: Blob,
    opslimit: uint64,
    memlimit: uint64,
    algorithm: int32)

  /** The heap struct `key_spec_t`. */
  class KeySpecRecord {
    var passphrase: CStr
    var kdfSalt: Blob
    var opslimit: uint64
    var memlimit: uint64
    var algorithm: int32

    function Value(): KeySpec
      reads this
    {
      KeySpec(passphrase, kdfSalt, opslimit, memlimit, algorithm)
    }
  }

  /** Operations and memory for a hardness, before the lower bound that Argon2i needs. */
  function Limits(h: Hardness): Option<(uint64, uint64)> {
    match h
    case Low => Some((OPSLIMIT_INTERACTIVE, MEMLIMIT_INTERACTIVE))
    case Medium => Some((OPSLIMIT_MODERATE, MEMLIMIT_MODERATE))
    case High => Some((OPSLIMIT_SENSITIVE, MEMLIMIT_SENSITIVE))
    case _ => None
  }

  function NewKeySpec(passphrase: CStr, h: Hardness, salt: Blob): (o: Outcome<KeySpec>)
    ensures o.Done? <==> h in {Low, Medium, High}
    ensures !o.Done? ==> o == Exit(EXIT_PROGRAMMER_ERROR)
    ensures o.Done? ==> o.value.opslimit >= 3 && 0 <= o.value.algorithm < 0x1_0000
  {
    match Limits(h)
    case None => Exit(EXIT_PROGRAMMER_ERROR)
    case Some((operations, memory)) =>
      Done(KeySpec(passphrase, salt, if operations < 3 then 3 else operations, memory, ALG_ARGON2I13))
  }

  /** More hardness takes more memory and no fewer operations, and automatic hardness is the most
      whose memory fits twice into what is there, or else low. */
  lemma HardnessIsOrdered(available: nat, h: Hardness)
    requires h in {Low, Medium, High}
    ensures Limits(Low).value.1 < Limits(Medium).value.1 < Limits(High).value.1
    ensures Limits(Low).value.0 <= Limits(Medium).value.0 <= Limits(High).value.0
    ensures var chosen := HardnessForMemory(available);
      && Limits(chosen).Some?
      && (chosen == Low || 2 * Limits(chosen).value.1 < available)
      && (2 * Limits(h).value.1 < available ==> Limits(h).value.1 <= Limits(chosen).value.1)
  {
    assert Limits(Medium) == Some((OPSLIMIT_MODERATE, MEMLIMIT_MODERATE));
    assert Limits(High) == Some((OPSLIMIT_SENSITIVE, MEMLIMIT_SENSITIVE));
  }

  method MakeNewKeySpec(invocation: InvocationState, salt: Blob) returns (o: Outcome<KeySpecRecord>)
    requires invocation.passphrase.Some?
    ensures match NewKeySpec(invocation.passphrase.value, invocation.kdfHardness, salt)
      case Done(spec) => o.Done? && fresh(o.value) && o.value.Value() == spec
      case Exit(code) => o == Exit(code)
      case Undefined => false
  {
    var spec := new KeySpecRecord;
    spec.passphrase := invocation.passphrase.value;
    match invocation.kdfHardness {
      case Low =>
        spec.opslimit := OPSLIMIT_INTERACTIVE;
        spec.memlimit := MEMLIMIT_INTERACTIVE;
      case Medium =>
        spec.opslimit := OPSLIMIT_MODERATE;
        spec.memlimit := MEMLIMIT_MODERATE;
      case High =>
        spec.opslimit := OPSLIMIT_SENSITIVE;
        spec.memlimit := MEMLIMIT_SENSITIVE;
      case Unspecified => return Exit(EXIT_PROGRAMMER_ERROR);
      case Invalid => return Exit(EXIT_PROGRAMMER_ERROR);
    }
    if spec.opslimit < 3 {
      spec.opslimit := 3;
    }
    spec.algorithm := ALG_ARGON2I13;
    spec.kdfSalt := salt;
    return Done(spec);
  }

  function SpecFrom(passphrase: CStr, r: Cleartext): KeySpec {
    KeySpec(passphrase, r.kdfSalt, r.opslimit, r.memlimit, r.algorithm)
  }

  method MakeKeySpecFromCleartext(passphrase: CStr, clear: ClearRecord) returns (spec: KeySpecRecord)
    ensures fresh(spec) && spec.Value() == SpecFrom(passphrase, clear.Value())
  {
    spec := new KeySpecRecord;
    spec.passphrase := passphrase;
    spec.opslimit := clear.opslimit;
    spec.memlimit := clear.memlimit;
    spec.algorithm := clear.algorithm;
    spec.kdfSalt := clear.kdfSalt;
  }

  function Derived(crypto: Crypto, spec: KeySpec): (o: Outcome<Blob>)
    ensures o == Exit(96) <==> |spec.kdfSalt| != 16
    ensures o.Done? ==>
      crypto.passwordHash(spec.passphrase, spec.kdfSalt, spec.opslimit, spec.memlimit, spec.algorithm) == Some(o.value)
    ensures !o.Undefined?
  {
    if |spec.kdfSalt| != SALT_BYTES then Exit(EXIT_PROGRAMMER_ERROR)
    else match crypto.passwordHash(spec.passphrase, spec.kdfSalt, spec.opslimit, spec.memlimit, spec.algorithm)
      case None => Exit(EXIT_OUT_OF_MEMORY)
      case Some(key) => Done(key)
  }

  method DeriveKey(crypto: Crypto, spec: KeySpecRecord) returns (o: Outcome<Blob>)
    ensures o == Derived(crypto, spec.Value())
  {
    if |spec.kdfSalt| != SALT_BYTES {
      return Exit(EXIT_PROGRAMMER_ERROR);
    }
    var key := crypto.passwordHash(spec.passphrase, spec.kdfSalt, spec.opslimit, spec.memlimit, spec.algorithm);
    if key.None? {
      return Exit(EXIT_OUT_OF_MEMORY);
    }
    return Done(key.value);
  }
}
