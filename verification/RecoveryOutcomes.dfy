/** Every way in which recovering from a keyfile ends, in terms of the password hash, the box and the
    generic hash themselves. */
module RecoveryOutcomes {
  import opened Basics
  import opened Cbor
  import opened KeyfileFormat
  import opened Cryptography
  import opened Authenticator
  import opened Sealing
  import opened Generate
  import opened EndToEnd

  /** A key that cannot be derived and a box shorter than its MAC both exit 64. */
  lemma OutOfMemoryExactly(crypto: Crypto, data: seq<byte>, passphrase: CStr, mixin: Option<CStr>)
    requires Lawful(crypto)
    ensures FromKeyfile(crypto, data, passphrase, mixin) == Exit(64) <==>
      && LoadClear(data).Done?
      && var r := LoadClear(data).value.value;
         var key := crypto.passwordHash(passphrase, r.kdfSalt, r.opslimit, r.memlimit, r.algorithm);
         |r.kdfSalt| == 16 && (key.None? || |r.encryptedData| < 16)
  {
    hide LoadClear, LoadSecrets, ClientDataHash, XorBytes;
  }

  /** What the recovery gives for an opened box. */
  ghost predicate Recovers(crypto: Crypto, r: Cleartext, s: Secrets, mixin: Option<CStr>, recovered: Recovery) {
    && recovered.aaguid == r.deviceAaguid
    && s.relyingPartyId == Some(recovered.request.relyingPartyId)
    && recovered.request.clientDataHash == seq(32, i => 'A' as byte)
    && recovered.request.credentialId == s.credentialId
    && match mixin
       case None => recovered.request.salt == s.salt
       case Some(data) =>
         var hash := crypto.genericHash(|s.salt|, data);
         && hash.Some? && |recovered.request.salt| == |s.salt| == |hash.value|
         && forall i :: 0 <= i < |s.salt| ==> recovered.request.salt[i] == Xor(s.salt[i], hash.value[i])
  }

  lemma SameRequest(crypto: Crypto, r: Cleartext, s: Secrets, mixin: Option<CStr>, salt: seq<byte>, recovered: Recovery)
    requires Lawful(crypto) && s.relyingPartyId.Some? && 0 !in s.relyingPartyId.value
    requires MixedSalt(crypto, s.salt, mixin) == Done(salt)
    ensures recovered == Recovery(r.deviceAaguid, Request(CString(s.relyingPartyId.value), ClientDataHash(),
                                                          s.credentialId, salt))
       <==> Recovers(crypto, r, s, mixin, recovered)
  {
    hide Xor;
    CStringUnique(s.relyingPartyId.value, s.relyingPartyId.value);
    assert ClientDataHash() == seq(32, i => 'A' as byte);
  }

  lemma LoadedNameIsACString(plain: seq<byte>)
    requires LoadSecrets(plain).Done?
    ensures var name := LoadSecrets(plain).value.value.relyingPartyId; name.Some? ==> 0 !in name.value
  {
    hide ReadArray;
  }

  /** The outcomes that are left once the box opened to something that has a meaning. */
  lemma OutcomeOfOpened(crypto: Crypto, data: seq<byte>, passphrase: CStr, mixin: Option<CStr>, plain: seq<byte>)
    requires Lawful(crypto) && LoadClear(data).Done?
    requires var r := LoadClear(data).value.value;
      var key := crypto.passwordHash(passphrase, r.kdfSalt, r.opslimit, r.memlimit, r.algorithm);
      && |r.kdfSalt| == 16 && key.Some? && |r.encryptedData| >= 16 && |r.nonce| >= 24
      && crypto.open(r.encryptedData, r.nonce[..24], key.value) == Some(plain)
      && !EmptyRoot(plain) && !Unnamed(plain)
    ensures var o, loaded := FromKeyfile(crypto, data, passphrase, mixin), LoadSecrets(plain);
      && (o == Exit(36) <==> !loaded.Done?)
      && (o == Exit(66) <==> loaded.Done? && mixin.Some?
                             && crypto.genericHash(|loaded.value.value.salt|, mixin.value).None?)
      && forall recovered :: o == Done(recovered) <==>
           loaded.Done? && Recovers(crypto, LoadClear(data).value.value, loaded.value.value, mixin, recovered)
  {
    hide LoadClear, LoadSecrets, ReadArray, ClientDataHash, XorBytes, Unnamed, Recovers;
    var r := LoadClear(data).value.value;
    SecretsWithoutName(plain);
    if LoadSecrets(plain).Done? {
      var s := LoadSecrets(plain).value.value;
      LoadedNameIsACString(plain);
      match MixedSalt(crypto, s.salt, mixin) {
        case Done(salt) =>
          forall recovered {
            SameRequest(crypto, r, s, mixin, salt, recovered);
          }
        case Exit(_) =>
          forall recovered ensures !Recovers(crypto, r, s, mixin, recovered) {
            NoSaltNoRequest(crypto, r, s, mixin, recovered);
          }
      }
    }
  }

  lemma NoSaltNoRequest(crypto: Crypto, r: Cleartext, s: Secrets, mixin: Option<CStr>, recovered: Recovery)
    requires Lawful(crypto) && MixedSalt(crypto, s.salt, mixin).Exit?
    ensures MixedSalt(crypto, s.salt, mixin) == Exit(66) && mixin.Some? && !Recovers(crypto, r, s, mixin, recovered)
  {
  }

  /** From the bytes of a keyfile: recovery succeeds with a request exactly when the record loads, the
      password hash gives a key, the box opens under it to secrets that load and have a name, and the
      request holds those secrets, the salt combined byte by byte with the hash of a mixin. */
  lemma RecoversExactly(crypto: Crypto, data: seq<byte>, passphrase: CStr, mixin: Option<CStr>, recovered: Recovery)
    requires Lawful(crypto)
    ensures FromKeyfile(crypto, data, passphrase, mixin) == Done(recovered) <==>
      && LoadClear(data).Done?
      && var r := LoadClear(data).value.value;
         var key := crypto.passwordHash(passphrase, r.kdfSalt, r.opslimit, r.memlimit, r.algorithm);
         && |r.kdfSalt| == 16 && key.Some? && |r.encryptedData| >= 16 && |r.nonce| >= 24
         && var plain := crypto.open(r.encryptedData, r.nonce[..24], key.value);
            && plain.Some? && LoadSecrets(plain.value).Done?
            && Recovers(crypto, r, LoadSecrets(plain.value).value.value, mixin, recovered)
  {
    hide FromKeyfile, LoadClear, LoadSecrets, EmptyRoot, Unnamed, Recovers;
    if LoadClear(data).Done? {
      BugExitExactly(crypto, data, passphrase, mixin);
      OutOfMemoryExactly(crypto, data, passphrase, mixin);
      BadPassphraseExactly(crypto, data, passphrase, mixin);
      UndefinedExactly(crypto, data, passphrase, mixin);
      RootlessIsUndefined(data);
      var r := LoadClear(data).value.value;
      var key := crypto.passwordHash(passphrase, r.kdfSalt, r.opslimit, r.memlimit, r.algorithm);
      if |r.kdfSalt| == 16 && key.Some? && |r.encryptedData| >= 16 && |r.nonce| >= 24 {
        var plain := crypto.open(r.encryptedData, r.nonce[..24], key.value);
        if plain.Some? {
          if EmptyRoot(plain.value) || Unnamed(plain.value) {
            NamelessIsNotRecovered(crypto, r, plain.value, mixin, recovered);
          } else {
            OutcomeOfOpened(crypto, data, passphrase, mixin, plain.value);
          }
        }
      }
    } else {
      NotLoaded(crypto, data, passphrase, mixin);
    }
  }

  lemma NamelessIsNotRecovered(crypto: Crypto, r: Cleartext, plain: seq<byte>, mixin: Option<CStr>, recovered: Recovery)
    requires EmptyRoot(plain) || Unnamed(plain)
    ensures LoadSecrets(plain).Done? ==> !Recovers(crypto, r, LoadSecrets(plain).value.value, mixin, recovered)
  {
    hide ReadArray, Unnamed;
    SecretsWithoutName(plain);
  }

  /** A keyfile that does not load exits 36, or is undefined when its root array is empty. */
  lemma NotLoaded(crypto: Crypto, data: seq<byte>, passphrase: CStr, mixin: Option<CStr>)
    requires Lawful(crypto) && !LoadClear(data).Done?
    ensures FromKeyfile(crypto, data, passphrase, mixin) == if EmptyRoot(data) then Undefined else Exit(36)
  {
    hide ReadArray;
  }
}
