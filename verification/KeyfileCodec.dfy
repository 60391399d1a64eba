/** The readers and writers of keyfile records, working on the counted items of libcbor. */
module KeyfileCodec {
  import opened Basics
  import opened Cbor
  import opened CborStore
  import opened KeyfileFormat

  /** The heap struct `deserialized_cleartext`. */
  class ClearRecord {
    var version: byte
    var deviceAaguid: Blob
    var kdfSalt: Blob
    var opslimit: uint64
    var memlimit: uint64
    var algorithm: int32
    var nonce: Blob
    var encryptedData: Blob

    /** `malloc`: the fields start out arbitrary. */
    constructor () {
    }

    function Value(): Cleartext
      reads this
    {
      Cleartext(version, deviceAaguid, kdfSalt, opslimit, memlimit, algorithm, nonce, encryptedData)
    }
  }

  /** The heap struct `deserialized_secrets`. */
  class SecretRecord {
    var version: byte
    var relyingPartyId: Option<Blob>
    var credentialId: Blob
    var salt: Blob

    constructor () {
    }

    function Value(): Secrets
      reads this
    {
      Secrets(version, relyingPartyId, credentialId, salt)
    }
  }

  /** Leaves the root as the only owner of the eight fields, and every other item as it was. */
  method SerializeClearV1(store: Store, clear: ClearRecord) returns (root: Id)
    requires store.Valid()
    modifies store
    ensures root == old(store.next) && store.next == root + 9
    ensures store.cells == Planted(old(store.cells), root, CLEAR_COUNT_OF_FIELDS, ClearItems(clear.Value()))
  {
    hide Planted;
    ghost var before := store.cells;
    ghost var all := ClearItems(clear.Value());
    root := store.NewDefiniteArray(CLEAR_COUNT_OF_FIELDS);
    assert all[..0] == [];
    store.Append(root, UInt(W8, clear.version as nat), before, all, 0);
    store.Append(root, Bytes(clear.deviceAaguid), before, all, 1);
    store.Append(root, Bytes(clear.kdfSalt), before, all, 2);
    store.Append(root, UInt(W64, clear.opslimit), before, all, 3);
    store.Append(root, UInt(W64, clear.memlimit), before, all, 4);
    store.Append(root, UInt(W16, ToUint16(clear.algorithm)), before, all, 5);
    store.Append(root, Bytes(clear.nonce), before, all, 6);
    store.Append(root, Bytes(clear.encryptedData), before, all, 7);
    assert all[..8] == all;
  }

  method SerializeSecretsV1(store: Store, secrets: SecretRecord) returns (root: Id)
    requires store.Valid() && secrets.relyingPartyId.Some?
    modifies store
    ensures root == old(store.next) && store.next == root + 5
    ensures store.cells == Planted(old(store.cells), root, ENCRYPTED_COUNT_OF_FIELDS, SecretItems(secrets.Value()))
  {
    hide Planted;
    ghost var before := store.cells;
    ghost var all := SecretItems(secrets.Value());
    root := store.NewDefiniteArray(ENCRYPTED_COUNT_OF_FIELDS);
    assert all[..0] == [];
    store.Append(root, UInt(W8, secrets.version as nat), before, all, 0);
    store.Append(root, Text(CString(secrets.relyingPartyId.value)), before, all, 1);
    store.Append(root, Bytes(secrets.credentialId), before, all, 2);
    store.Append(root, Bytes(secrets.salt), before, all, 3);
    assert all[..4] == all;
  }

  /** The pattern of every byte-string field: it must be a definite byte string, and is copied out. */
  method BytesField(store: Store, root: Id, i: nat, ghost before: Cells, ghost items: seq<Item>)
    returns (data: Option<Blob>)
    requires Below(before, root) && ValidItems(items) && i < |items|
    requires store.cells == Planted(before, root, |items|, items)
    modifies store`cells
    ensures store.cells == old(store.cells)
    ensures data == if items[i].Bytes? then Some(items[i].data) else None
  {
    var item := store.Field(root, i, before, |items|, items);
    data := if item.Bytes? then Some(item.data) else None;
  }

  /** The pattern of every integer field: it must have exactly the width the layout names. */
  method UIntField(store: Store, root: Id, i: nat, width: Width, ghost before: Cells, ghost items: seq<Item>)
    returns (value: Option<nat>)
    requires Below(before, root) && ValidItems(items) && i < |items|
    requires store.cells == Planted(before, root, |items|, items)
    modifies store`cells
    ensures store.cells == old(store.cells)
    ensures value == if items[i].UInt? && items[i].width == width then Some(items[i].value) else None
    ensures value.Some? ==>
      value.value < match width case W8 => 0x100 case W16 => 0x1_0000 case W32 => 0x1_0000_0000 case W64 => TWO_TO_64
  {
    PowersOf256();
    var item := store.Field(root, i, before, |items|, items);
    value := if item.UInt? && item.width == width then Some(item.value) else None;
  }

  /** On success the root and all its children are freed and every other item is as before; the
      early exits end the process. */
  method DeserializeClearV1(store: Store, root: Id, ghost before: Cells, ghost items: seq<Item>)
    returns (o: Outcome<ClearRecord>)
    requires Below(before, root) && ValidItems(items)
    requires store.cells == Planted(before, root, |items|, items)
    modifies store`cells
    ensures match ClearV1(items)
      case Done(r) => o.Done? && fresh(o.value) && o.value.Value() == r && store.cells == before
      case Exit(code) => o == Exit(code)
      case Undefined => false
  {
    hide Planted, Released, ValidItem, ClearOf, Below, CString;
    PlantedCells(before, root, |items|, items);
    var clear := new ClearRecord();
    if |store.cells[root].body.children| != CLEAR_COUNT_OF_FIELDS {
      return Exit(EXIT_DESERIALIZATION_ERROR);
    }
    var version := UIntField(store, root, CLEAR_FIELD_VERSION, W8, before, items);
    if version.None? {
      return Exit(EXIT_DESERIALIZATION_ERROR);
    }
    clear.version := version.value as byte;
    if clear.version != SERIALIZATION_VERSION {
      return Exit(EXIT_PROGRAMMER_ERROR);
    }
    var deviceAaguid := BytesField(store, root, CLEAR_FIELD_DEVICE_AAGUID, before, items);
    if deviceAaguid.None? {
      return Exit(EXIT_DESERIALIZATION_ERROR);
    }
    clear.deviceAaguid := deviceAaguid.value;
    var kdfSalt := BytesField(store, root, CLEAR_FIELD_KDF_SALT, before, items);
    if kdfSalt.None? {
      return Exit(EXIT_DESERIALIZATION_ERROR);
    }
    clear.kdfSalt := kdfSalt.value;
    var opslimit := UIntField(store, root, CLEAR_FIELD_OPSLIMIT, W64, before, items);
    if opslimit.None? {
      return Exit(EXIT_DESERIALIZATION_ERROR);
    }
    clear.opslimit := opslimit.value;
    var memlimit := UIntField(store, root, CLEAR_FIELD_MEMLIMIT, W64, before, items);
    if memlimit.None? {
      return Exit(EXIT_DESERIALIZATION_ERROR);
    }
    clear.memlimit := memlimit.value;
    var algorithm := UIntField(store, root, CLEAR_FIELD_ALGORITHM, W16, before, items);
    if algorithm.None? {
      return Exit(EXIT_DESERIALIZATION_ERROR);
    }
    clear.algorithm := algorithm.value;
    var nonce := BytesField(store, root, CLEAR_FIELD_NONCE, before, items);
    if nonce.None? {
      return Exit(EXIT_DESERIALIZATION_ERROR);
    }
    clear.nonce := nonce.value;
    var encryptedData := BytesField(store, root, CLEAR_FIELD_ENCRYPTED_DATA, before, items);
    if encryptedData.None? {
      return Exit(EXIT_DESERIALIZATION_ERROR);
    }
    clear.encryptedData := encryptedData.value;
    ClearOfFields(items, clear.Value());
    ReleasePlanted(before, root, |items|, items);
    store.Decref(root);
    return Done(clear);
  }

  lemma ClearOfFields(items: seq<Item>, r: Cleartext)
    requires ValidItems(items) && ClearShape(items)
    requires r.version as nat == items[0].value && r.deviceAaguid == items[1].data && r.kdfSalt == items[2].data
    requires r.opslimit == items[3].value && r.memlimit == items[4].value && r.algorithm == items[5].value
    requires r.nonce == items[6].data && r.encryptedData == items[7].data
    ensures ClearOf(items) == r
  {
  }

  method DeserializeSecretsV1(store: Store, root: Id, ghost before: Cells, ghost items: seq<Item>)
    returns (o: Outcome<SecretRecord>)
    requires Below(before, root) && ValidItems(items)
    requires store.cells == Planted(before, root, |items|, items)
    modifies store`cells
    ensures match SecretsV1(items)
      case Done(s) => o.Done? && fresh(o.value) && o.value.Value() == s && store.cells == before
      case Exit(code) => o == Exit(code)
      case Undefined => false
  {
    hide Planted, Released;
    PlantedCells(before, root, |items|, items);
    var secrets := new SecretRecord();
    if |store.cells[root].body.children| != ENCRYPTED_COUNT_OF_FIELDS {
      return Exit(EXIT_DESERIALIZATION_ERROR);
    }
    var version := UIntField(store, root, ENCRYPTED_FIELD_VERSION, W8, before, items);
    if version.None? {
      return Exit(EXIT_DESERIALIZATION_ERROR);
    }
    secrets.version := version.value as byte;
    if secrets.version != SERIALIZATION_VERSION {
      return Exit(EXIT_PROGRAMMER_ERROR);
    }
    var item := store.Field(root, ENCRYPTED_FIELD_RP_ID, before, |items|, items);
    if !item.Text? {
      return Exit(EXIT_DESERIALIZATION_ERROR);
    }
    assert ValidItem(items[1]);
    if |item.data| > 0 {
      secrets.relyingPartyId := Some(CString(item.data));
    } else {
      secrets.relyingPartyId := None;
    }
    var credentialId := BytesField(store, root, ENCRYPTED_FIELD_CREDENTIAL_ID, before, items);
    if credentialId.None? {
      return Exit(EXIT_DESERIALIZATION_ERROR);
    }
    secrets.credentialId := credentialId.value;
    var salt := BytesField(store, root, ENCRYPTED_FIELD_HMAC_SALT, before, items);
    if salt.None? {
      return Exit(EXIT_DESERIALIZATION_ERROR);
    }
    secrets.salt := salt.value;
    ReleasePlanted(before, root, |items|, items);
    store.Decref(root);
    return Done(secrets);
  }

  /** `write_cleartext`: the bytes of the record; no CBOR item outlives the call. */
  method WriteCleartext(store: Store, clear: ClearRecord) returns (data: seq<byte>)
    requires store.Valid()
    modifies store
    ensures store.next >= old(store.next)
    ensures data == WriteClear(clear.Value())
    ensures store.cells == old(store.cells)
  {
    hide Planted, Released, PrintArray;
    ghost var items := ClearItems(clear.Value());
    var root := SerializeClearV1(store, clear);
    data := store.Serialize(root, old(store.cells), |items|, items);
    ReleasePlanted(old(store.cells), root, |items|, items);
    store.Decref(root);
  }

  /** `load_cleartext`: on success no CBOR item outlives the call. */
  method LoadCleartext(store: Store, data: seq<byte>) returns (o: Outcome<ClearRecord>)
    requires store.Valid()
    modifies store
    ensures store.next >= old(store.next)
    ensures match LoadClear(data)
      case Done(Read(r, _)) => o.Done? && fresh(o.value) && o.value.Value() == r && store.cells == old(store.cells)
      case Exit(code) => o == Exit(code)
      case Undefined => o.Undefined?
  {
    hide Planted, Released, ReadArray, ClearV1;
    ghost var before := store.cells;
    var loaded := store.Load(data);
    if loaded.None? {
      return Exit(EXIT_DESERIALIZATION_ERROR);
    }
    var root := loaded.value;
    ReadArrayIsValid(data);
    ghost var items := ReadArray(data).value.value;
    PlantedCells(before, root, |items|, items);
    if |store.cells[root].body.children| == 0 {
      return Undefined;
    }
    var item := store.Field(root, 0, before, |items|, items);
    if !IsVersion(item) || item.value != SERIALIZATION_VERSION as nat {
      return Exit(EXIT_DESERIALIZATION_ERROR);
    }
    o := DeserializeClearV1(store, root, before, items);
  }

  /** `load_secrets_from_bytes` */
  method LoadSecretsFromBytes(store: Store, data: seq<byte>) returns (o: Outcome<SecretRecord>)
    requires store.Valid()
    modifies store
    ensures store.next >= old(store.next)
    ensures match LoadSecrets(data)
      case Done(Read(s, _)) => o.Done? && fresh(o.value) && o.value.Value() == s && store.cells == old(store.cells)
      case Exit(code) => o == Exit(code)
      case Undefined => o.Undefined?
  {
    hide Planted, Released, ReadArray, SecretsV1;
    ghost var before := store.cells;
    var loaded := store.Load(data);
    if loaded.None? {
      return Exit(EXIT_DESERIALIZATION_ERROR);
    }
    var root := loaded.value;
    ReadArrayIsValid(data);
    ghost var items := ReadArray(data).value.value;
    PlantedCells(before, root, |items|, items);
    if |store.cells[root].body.children| == 0 {
      return Undefined;
    }
    var item := store.Field(root, 0, before, |items|, items);
    if !IsVersion(item) || item.value != SERIALIZATION_VERSION as nat {
      return Exit(EXIT_DESERIALIZATION_ERROR);
    }
    o := DeserializeSecretsV1(store, root, before, items);
  }
}
