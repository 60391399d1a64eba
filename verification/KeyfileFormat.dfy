/** Version 1 of the two record layouts of a keyfile, as functions of their bytes. */
module KeyfileFormat {
  import opened Basics
  import opened Cbor

  const SERIALIZATION_VERSION: byte := 1

  /** `deserialized_cleartext` */
  datatype Cleartext = Cleartext(
    version: byte,
    deviceAaguid: Blob,
    kdfSalt: Blob,
    opslimit: uint64,
    memlimit: uint64,
    algorithm: int32,
    nonce: Blob,
    encryptedData: Blob)

  /** `deserialized_secrets`; a NULL relying party ID is None, and a C string is what precedes its NUL. */
  datatype Secrets = Secrets(
    version: byte,
    relyingPartyId: Option<Blob>,
    credentialId: Blob,
    salt: Blob)

  const CLEAR_FIELD_VERSION := 0
  const CLEAR_FIELD_DEVICE_AAGUID := 1
  const CLEAR_FIELD_KDF_SALT := 2
  const CLEAR_FIELD_OPSLIMIT := 3
  const CLEAR_FIELD_MEMLIMIT := 4
  const CLEAR_FIELD_ALGORITHM := 5
  const CLEAR_FIELD_NONCE := 6
  const CLEAR_FIELD_ENCRYPTED_DATA := 7
  const CLEAR_COUNT_OF_FIELDS := 8

  const ENCRYPTED_FIELD_VERSION := 0
  const ENCRYPTED_FIELD_RP_ID := 1
  const ENCRYPTED_FIELD_CREDENTIAL_ID := 2
  const ENCRYPTED_FIELD_HMAC_SALT := 3
  const ENCRYPTED_COUNT_OF_FIELDS := 4

  // ---------------------------------------------------------------- writing

  /** The conversion of `int` to the `uint16_t` parameter of `cbor_build_uint16`. */
  function ToUint16(n: int32): (u: nat)
    ensures u < 0x1_0000 && (0 <= n < 0x1_0000 <==> u == n)
  {
    n % 0x1_0000
  }

  function ClearItems(r: Cleartext): (items: seq<Item>)
    ensures |items| == CLEAR_COUNT_OF_FIELDS
    ensures forall i :: 0 <= i < |items| ==> ValidItem(items[i])
  {
    PowersOf256();
    [UInt(W8, r.version as nat), Bytes(r.deviceAaguid), Bytes(r.kdfSalt), UInt(W64, r.opslimit),
     UInt(W64, r.memlimit), UInt(W16, ToUint16(r.algorithm)), Bytes(r.nonce), Bytes(r.encryptedData)]
  }

  function WriteClear(r: Cleartext): seq<byte> {
    PrintArray(ClearItems(r))
  }

  function SecretItems(s: Secrets): (items: seq<Item>)
    requires s.relyingPartyId.Some?
    ensures |items| == ENCRYPTED_COUNT_OF_FIELDS
    ensures forall i :: 0 <= i < |items| ==> ValidItem(items[i])
  {
    PowersOf256();
    [UInt(W8, s.version as nat), Text(CString(s.relyingPartyId.value)), Bytes(s.credentialId), Bytes(s.salt)]
  }

  function WriteSecrets(s: Secrets): seq<byte>
    requires s.relyingPartyId.Some?
  {
    PrintArray(SecretItems(s))
  }

  // ---------------------------------------------------------------- reading

  predicate IsVersion(it: Item) { it.UInt? && it.width == W8 }

  /** The root checks of both loaders and the version dispatch.  An empty array is indexed anyway. */
  function Dispatch(items: seq<Item>): Outcome<()> {
    if items == [] then Undefined
    else if !IsVersion(items[0]) || items[0].value != SERIALIZATION_VERSION as nat then Exit(EXIT_DESERIALIZATION_ERROR)
    else Done(())
  }

  predicate ClearShape(items: seq<Item>) {
    && |items| == CLEAR_COUNT_OF_FIELDS
    && IsVersion(items[0])
    && items[1].Bytes? && items[2].Bytes?
    && items[3].UInt? && items[3].width == W64
    && items[4].UInt? && items[4].width == W64
    && items[5].UInt? && items[5].width == W16
    && items[6].Bytes? && items[7].Bytes?
  }

  function ClearOf(items: seq<Item>): (r: Cleartext)
    requires ClearShape(items)
    requires forall i :: 0 <= i < |items| ==> ValidItem(items[i])
    ensures ClearItems(r) == items
  {
    PowersOf256();
    assert ValidItem(items[0]) && ValidItem(items[1]) && ValidItem(items[2]) && ValidItem(items[3]);
    assert ValidItem(items[4]) && ValidItem(items[5]) && ValidItem(items[6]) && ValidItem(items[7]);
    Cleartext(items[0].value as byte, items[1].data, items[2].data, items[3].value, items[4].value,
              items[5].value, items[6].data, items[7].data)
  }

  predicate SecretShape(items: seq<Item>) {
    && |items| == ENCRYPTED_COUNT_OF_FIELDS
    && IsVersion(items[0])
    && items[1].Text? && items[2].Bytes? && items[3].Bytes?
  }

  /** `strncpy` into a buffer that gets a final NUL, or NULL for an empty text string. */
  function TextField(data: Blob): Option<Blob> {
    if data == [] then None else Some(CString(data))
  }

  function SecretsOf(items: seq<Item>): Secrets
    requires SecretShape(items)
    requires forall i :: 0 <= i < |items| ==> ValidItem(items[i])
  {
    PowersOf256();
    assert ValidItem(items[0]) && ValidItem(items[1]) && ValidItem(items[2]) && ValidItem(items[3]);
    Secrets(items[0].value as byte, TextField(items[1].data), items[2].data, items[3].data)
  }

  /** `deserialize_cleartext_from_cbor_v1` on the children of the root. */
  function ClearV1(items: seq<Item>): Outcome<Cleartext>
    requires forall i :: 0 <= i < |items| ==> ValidItem(items[i])
  {
    if |items| != CLEAR_COUNT_OF_FIELDS || !IsVersion(items[0]) then Exit(EXIT_DESERIALIZATION_ERROR)
    else if items[0].value != SERIALIZATION_VERSION as nat then Exit(EXIT_PROGRAMMER_ERROR)
    else if ClearShape(items) then Done(ClearOf(items))
    else Exit(EXIT_DESERIALIZATION_ERROR)
  }

  /** `deserialize_secrets_from_cbor_v1` on the children of the root. */
  function SecretsV1(items: seq<Item>): Outcome<Secrets>
    requires forall i :: 0 <= i < |items| ==> ValidItem(items[i])
  {
    if |items| != ENCRYPTED_COUNT_OF_FIELDS || !IsVersion(items[0]) then Exit(EXIT_DESERIALIZATION_ERROR)
    else if items[0].value != SERIALIZATION_VERSION as nat then Exit(EXIT_PROGRAMMER_ERROR)
    else if SecretShape(items) then Done(SecretsOf(items))
    else Exit(EXIT_DESERIALIZATION_ERROR)
  }

  /** `load_cleartext`: the record, and how many bytes it took.  Only an empty root array is
      undefined, every refusal has the one code, and the version bug exit is never taken. */
  function LoadClear(data: seq<byte>): (o: Outcome<Read<Cleartext>>)
    ensures o.Undefined? <==> ReadArray(data).Some? && ReadArray(data).value.value == []
    ensures o.Exit? ==> o.code == 36
  {
    match ReadArray(data)
    case None => Exit(EXIT_DESERIALIZATION_ERROR)
    case Some(Read(items, size)) =>
      ReadArrayIsValid(data);
      match Dispatch(items)
      case Undefined => Undefined
      case Exit(code) => Exit(code)
      case Done(_) =>
        match ClearV1(items)
        case Undefined => Undefined
        case Exit(code) => Exit(code)
        case Done(r) => Done(Read(r, size))
  }

  /** `load_secrets_from_bytes` */
  function LoadSecrets(data: seq<byte>): (o: Outcome<Read<Secrets>>)
    ensures o.Undefined? <==> ReadArray(data).Some? && ReadArray(data).value.value == []
    ensures o.Exit? ==> o.code == 36
  {
    match ReadArray(data)
    case None => Exit(EXIT_DESERIALIZATION_ERROR)
    case Some(Read(items, size)) =>
      ReadArrayIsValid(data);
      match Dispatch(items)
      case Undefined => Undefined
      case Exit(code) => Exit(code)
      case Done(_) =>
        match SecretsV1(items)
        case Undefined => Undefined
        case Exit(code) => Exit(code)
        case Done(s) => Done(Read(s, size))
  }

  // ---------------------------------------------------------------- theorems

  /** Reading back what was written, whatever follows it, gives the same record exactly when the
      record is version 1 and its algorithm fits 16 bits; otherwise the algorithm is cut down to 16
      bits, and another version is refused. */
  lemma ClearRoundTrip(r: Cleartext, tail: seq<byte>)
    ensures LoadClear(WriteClear(r) + tail)
         == if r.version == 1 then Done(Read(r.(algorithm := r.algorithm % 0x1_0000), |WriteClear(r)|)) else Exit(36)
    ensures LoadClear(WriteClear(r) + tail) == Done(Read(r, |WriteClear(r)|))
       <==> r.version == 1 && 0 <= r.algorithm < 0x1_0000
  {
    hide ReadArray, PrintArray;
    ArrayReadsBack(ClearItems(r), tail);
  }

  ghost predicate Loadable(r: Cleartext) {
    r.version == 1 && 0 <= r.algorithm < 0x1_0000
  }

  /** No keyfile is a proper prefix of another, and different records give different keyfiles. */
  lemma ClearPrefixFree(r: Cleartext, q: Cleartext)
    requires Loadable(r) && Loadable(q) && WriteClear(r) <= WriteClear(q)
    ensures r == q
  {
    hide WriteClear, LoadClear;
    var tail := WriteClear(q)[|WriteClear(r)|..];
    assert WriteClear(q) == WriteClear(r) + tail;
    assert WriteClear(q) == WriteClear(q) + [];
    ClearRoundTrip(r, tail);
    ClearRoundTrip(q, []);
  }

  /** Whatever heads and array form the bytes chose, writing the loaded record again takes no more
      bytes than were read, and as many only when it gives the same bytes. */
  lemma ClearShortest(data: seq<byte>)
    requires LoadClear(data).Done?
    ensures var Read(r, size) := LoadClear(data).value;
      Loadable(r) && NoLongerThan(WriteClear(r), data, size)
  {
    hide ReadArray, PrintArray;
    ArrayIsShortest(data);
  }

  /** The same for the encrypted layer: a record whose relying party ID is a C string reads back
      exactly when it is version 1 and that string is not empty. */
  lemma SecretsRoundTrip(s: Secrets, tail: seq<byte>)
    requires s.relyingPartyId.Some? && 0 !in s.relyingPartyId.value
    ensures LoadSecrets(WriteSecrets(s) + tail) == Done(Read(s, |WriteSecrets(s)|))
       <==> s.version == 1 && s.relyingPartyId.value != []
  {
    hide ReadArray, PrintArray;
    CStringUnique(s.relyingPartyId.value, s.relyingPartyId.value);
    ArrayReadsBack(SecretItems(s), tail);
  }

  lemma ShorterTextPrintsShorter(short: Blob, long: Blob)
    requires |short| < |long|
    ensures |PrintItem(Text(short))| < |PrintItem(Text(long))|
  {
  }

  lemma PrintTwoItems(items: seq<Item>)
    requires |items| >= 2 && ValidItems(items)
    ensures PrintItems(items) == PrintItem(items[0]) + (PrintItem(items[1]) + PrintItems(items[2..]))
  {
    hide PrintItem;
    assert items[1..][0] == items[1] && items[1..][1..] == items[2..];
  }

  /** Rewriting loaded secrets takes no more bytes either, even when the text string held a NUL. */
  lemma SecretsShortest(data: seq<byte>)
    requires LoadSecrets(data).Done? && LoadSecrets(data).value.value.relyingPartyId.Some?
    ensures var Read(s, size) := LoadSecrets(data).value;
      NoLongerThan(WriteSecrets(s), data, size)
  {
    hide ReadArray, PrintItem, PrintItems;
    var Read(s, size) := LoadSecrets(data).value;
    var items, mine := ReadArray(data).value.value, SecretItems(s);
    ArrayIsShortest(data);
    PrintTwoItems(items);
    PrintTwoItems(mine);
    assert mine[2..] == items[2..];
    if mine[1] == items[1] {
      assert mine == items;
    } else {
      ShorterTextPrintsShorter(mine[1].data, items[1].data);
    }
  }

  /** The bytes of a keyfile: the head of an array of eight, and the fields in their order. */
  lemma ClearBytes(r: Cleartext)
    ensures ValidItem(UInt(W8, r.version as nat)) && ValidItem(UInt(W16, r.algorithm % 0x1_0000))
    ensures WriteClear(r)
         == [0x88] + (PrintItem(UInt(W8, r.version as nat)) + (PrintItem(Bytes(r.deviceAaguid))
              + (PrintItem(Bytes(r.kdfSalt)) + (PrintItem(UInt(W64, r.opslimit)) + (PrintItem(UInt(W64, r.memlimit))
              + (PrintItem(UInt(W16, r.algorithm % 0x1_0000)) + (PrintItem(Bytes(r.nonce))
              + PrintItem(Bytes(r.encryptedData)))))))))
  {
    hide PrintItem;
    PowersOf256();
    ArrayHead(8);
    var items := ClearItems(r);
    EightItems(items);
  }

  lemma ArrayHead(n: nat)
    requires n < 24
    ensures Head(4, n) == [(0x80 + n) as byte]
  {
  }

  lemma FourItems(items: seq<Item>)
    requires |items| >= 4 && ValidItems(items)
    ensures PrintItems(items) == PrintItem(items[0]) + (PrintItem(items[1]) + (PrintItem(items[2])
              + (PrintItem(items[3]) + PrintItems(items[4..]))))
  {
    hide PrintItem, ValidItem, PrintItems;
    PrintTwoItems(items);
    PrintTwoItems(items[2..]);
    assert items[2..][2..] == items[4..];
  }

  lemma EightItems(items: seq<Item>)
    requires |items| == 8 && ValidItems(items)
    ensures PrintItems(items) == PrintItem(items[0]) + (PrintItem(items[1]) + (PrintItem(items[2])
              + (PrintItem(items[3]) + (PrintItem(items[4]) + (PrintItem(items[5]) + (PrintItem(items[6])
              + PrintItem(items[7])))))))
  {
    hide PrintItem, ValidItem;
    FourItems(items);
    var last := items[4..];
    FourItems(last);
    assert last[0] == items[4] && last[1] == items[5] && last[2] == items[6] && last[3] == items[7];
    assert PrintItems(last[4..]) == [];
    hide PrintItems;
  }

  /** The bytes of the encrypted layer: the head of an array of four, and the fields in their order. */
  lemma SecretsBytes(s: Secrets)
    requires s.relyingPartyId.Some?
    ensures ValidItem(UInt(W8, s.version as nat))
    ensures WriteSecrets(s)
         == [0x84] + (PrintItem(UInt(W8, s.version as nat)) + (PrintItem(Text(CString(s.relyingPartyId.value)))
              + (PrintItem(Bytes(s.credentialId)) + PrintItem(Bytes(s.salt)))))
  {
    hide PrintItem;
    PowersOf256();
    ArrayHead(4);
    FourItems(SecretItems(s));
    assert PrintItems(SecretItems(s)[4..]) == [];
  }

  // ---------------------------------------------------------------- where each field is

  /** The record whose field with a header index is what an item holds, when the item is of that
      field's kind and width. */
  function ClearWith(r: Cleartext, i: nat, it: Item): Option<Cleartext>
    requires ValidItem(it)
  {
    PowersOf256();
    match it
    case UInt(W8, v) =>
      if i == CLEAR_FIELD_VERSION && v == SERIALIZATION_VERSION as nat then Some(r) else None
    case UInt(W16, v) => if i == CLEAR_FIELD_ALGORITHM then Some(r.(algorithm := v)) else None
    case UInt(W32, _) => None
    case UInt(W64, v) =>
      if i == CLEAR_FIELD_OPSLIMIT then Some(r.(opslimit := v))
      else if i == CLEAR_FIELD_MEMLIMIT then Some(r.(memlimit := v))
      else None
    case Bytes(d) =>
      if i == CLEAR_FIELD_DEVICE_AAGUID then Some(r.(deviceAaguid := d))
      else if i == CLEAR_FIELD_KDF_SALT then Some(r.(kdfSalt := d))
      else if i == CLEAR_FIELD_NONCE then Some(r.(nonce := d))
      else if i == CLEAR_FIELD_ENCRYPTED_DATA then Some(r.(encryptedData := d))
      else None
    case Text(_) => None
  }

  function SecretsWith(s: Secrets, i: nat, it: Item): Option<Secrets>
    requires ValidItem(it)
  {
    match it
    case UInt(w, v) =>
      if i == ENCRYPTED_FIELD_VERSION && w == W8 && v == SERIALIZATION_VERSION as nat then Some(s) else None
    case Bytes(d) =>
      if i == ENCRYPTED_FIELD_CREDENTIAL_ID then Some(s.(credentialId := d))
      else if i == ENCRYPTED_FIELD_HMAC_SALT then Some(s.(salt := d))
      else None
    case Text(d) => if i == ENCRYPTED_FIELD_RP_ID then Some(s.(relyingPartyId := TextField(d))) else None
  }

  /** Putting any item at a header index of a written keyfile changes that one field of what is
      loaded, or makes the file refused when the item is not of the field's kind. */
  lemma ClearFieldAtIndex(r: Cleartext, i: nat, it: Item, tail: seq<byte>)
    requires Loadable(r) && i < CLEAR_COUNT_OF_FIELDS && ValidItem(it)
    ensures var items := ClearItems(r)[i := it];
      ValidItems(items)
      && LoadClear(PrintArray(items) + tail)
      == match ClearWith(r, i, it)
         case Some(q) => Done(Read(q, |PrintArray(items)|))
         case None => Exit(EXIT_DESERIALIZATION_ERROR)
  {
    hide ReadArray, PrintArray;
    PowersOf256();
    ArrayReadsBack(ClearItems(r)[i := it], tail);
  }

  lemma SecretsFieldAtIndex(s: Secrets, i: nat, it: Item, tail: seq<byte>)
    requires s.version == SERIALIZATION_VERSION && s.relyingPartyId.Some?
    requires s.relyingPartyId.value != [] && 0 !in s.relyingPartyId.value
    requires i < ENCRYPTED_COUNT_OF_FIELDS && ValidItem(it)
    ensures var items := SecretItems(s)[i := it];
      ValidItems(items)
      && LoadSecrets(PrintArray(items) + tail)
      == match SecretsWith(s, i, it)
         case Some(q) => Done(Read(q, |PrintArray(items)|))
         case None => Exit(EXIT_DESERIALIZATION_ERROR)
  {
    hide ReadArray, PrintArray;
    PowersOf256();
    CStringUnique(s.relyingPartyId.value, s.relyingPartyId.value);
    ArrayReadsBack(SecretItems(s)[i := it], tail);
  }

  // ---------------------------------------------------------------- the accepted encodings

  lemma ClearIsItsItems(data: seq<byte>, r: Cleartext, size: nat)
    ensures LoadClear(data) == Done(Read(r, size))
       <==> Loadable(r) && ReadArray(data) == Some(Read(ClearItems(r), size))
  {
    hide ReadArray;
    if ReadArray(data).Some? {
      ReadArrayIsValid(data);
    }
  }

  /** A keyfile loads as a record exactly when the record is loadable and the bytes read are some
      legal form of its fields: any head that holds each argument, a definite or an indefinite root. */
  lemma ClearAcceptsExactly(data: seq<byte>, r: Cleartext, size: nat)
    ensures LoadClear(data) == Done(Read(r, size)) <==>
      && Loadable(r) && size <= |data|
      && exists infos, root :: LegalForm(ClearItems(r), infos, root)
                               && data[..size] == PrintArrayWith(ClearItems(r), infos, root)
  {
    hide ReadArray, LoadClear, ClearItems, PrintArrayWith, LegalForm;
    ClearIsItsItems(data, r, size);
    ReadsExactlyTheLegalForms(data, ClearItems(r), size);
  }

  /** Every record has a keyfile that is one byte longer than the written one. */
  lemma ClearIndefinite(r: Cleartext, tail: seq<byte>)
    requires Loadable(r)
    ensures LoadClear([0x9f] + (PrintItems(ClearItems(r)) + [0xff]) + tail)
         == Done(Read(r, |WriteClear(r)| + 1))
  {
    hide LoadClear, ClearItems, PrintItems, PrintItemsWith, LegalAll, ReadArray;
    var items := ClearItems(r);
    var infos := OwnInfos(items);
    ArrayReadsBackWith(items, infos, Indefinite, tail);
    var s := PrintArrayWith(items, infos, Indefinite);
    ClearIsItsItems(s + tail, r, |s|);
  }

  /** The children a written record would have, with any text string. */
  function SecretItemsWith(s: Secrets, text: Blob): seq<Item> {
    [UInt(W8, s.version as nat), Text(text), Bytes(s.credentialId), Bytes(s.salt)]
  }

  lemma SecretsAreTheirItems(data: seq<byte>, s: Secrets, size: nat)
    ensures LoadSecrets(data) == Done(Read(s, size)) <==>
      && s.version == 1
      && exists text :: TextField(text) == s.relyingPartyId
                        && ReadArray(data) == Some(Read(SecretItemsWith(s, text), size))
  {
    hide ReadArray;
    if ReadArray(data).Some? {
      ReadArrayIsValid(data);
      var items := ReadArray(data).value.value;
      if SecretShape(items) {
        var text: Blob := items[1].data;
        if LoadSecrets(data) == Done(Read(s, size)) {
          assert items == SecretItemsWith(s, text);
        }
      }
    }
  }

  lemma SecretsAcceptExactly(data: seq<byte>, s: Secrets, size: nat)
    ensures LoadSecrets(data) == Done(Read(s, size)) <==>
      && s.version == 1 && size <= |data|
      && exists text, infos, root ::
           && TextField(text) == s.relyingPartyId && LegalForm(SecretItemsWith(s, text), infos, root)
           && data[..size] == PrintArrayWith(SecretItemsWith(s, text), infos, root)
  {
    hide ReadArray, LoadSecrets, SecretItemsWith, TextField, PrintArrayWith, LegalForm;
    SecretsAreTheirItems(data, s, size);
    forall text: Blob {
      ReadsExactlyTheLegalForms(data, SecretItemsWith(s, text), size);
    }
  }
}
