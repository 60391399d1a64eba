/** How long a keyfile is, over both layers. */
module KeyfileSize {
  import opened Basics
  import opened Cbor
  import opened KeyfileFormat

  function HeadSize(n: nat): nat {
    if n < 24 then 1 else if n < 0x100 then 2 else if n < 0x1_0000 then 3 else if n < 0x1_0000_0000 then 5 else 9
  }

  /** A string and its head. */
  function StringSize(n: nat): nat { HeadSize(n) + n }

  function ItemSize(it: Item): nat {
    match it
    case UInt(W8, v) => HeadSize(v)
    case UInt(W16, _) => 3
    case UInt(W32, _) => 5
    case UInt(W64, _) => 9
    case _ => StringSize(|it.data|)
  }

  lemma HeadIsSized(major: nat, n: uint64)
    requires major < 8
    ensures |Head(major, n)| == HeadSize(n)
  {
  }

  lemma ItemIsSized(it: Item)
    requires ValidItem(it)
    ensures |PrintItem(it)| == ItemSize(it)
  {
    match it
    case UInt(W8, v) =>
      PowersOf256();
      HeadIsSized(0, v);
    case UInt(_, _) =>
    case Bytes(data) => HeadIsSized(2, |data|);
    case Text(data) => HeadIsSized(3, |data|);
  }

  function TotalSize(items: seq<Item>): nat {
    if items == [] then 0 else ItemSize(items[0]) + TotalSize(items[1..])
  }

  lemma {:induction false} ItemsAreSized(items: seq<Item>)
    requires ValidItems(items)
    ensures |PrintItems(items)| == TotalSize(items)
  {
    hide PrintItem, ItemSize, ValidItem;
    if items != [] {
      ItemIsSized(items[0]);
      ItemsAreSized(items[1..]);
    }
  }

  lemma ClearSize(r: Cleartext)
    ensures |WriteClear(r)|
         == 1 + HeadSize(r.version as nat) + StringSize(|r.deviceAaguid|) + StringSize(|r.kdfSalt|)
            + 9 + 9 + 3 + StringSize(|r.nonce|) + StringSize(|r.encryptedData|)
  {
    hide PrintItem, PrintItems, Head, HeadSize;
    var items := ClearItems(r);
    HeadIsSized(4, 8);
    SmallHead();
    ItemsAreSized(items);
    SizeOfEight(items);
  }

  lemma SecretsSize(s: Secrets)
    requires s.relyingPartyId.Some?
    ensures |WriteSecrets(s)|
         == 1 + HeadSize(s.version as nat) + StringSize(|CString(s.relyingPartyId.value)|)
            + StringSize(|s.credentialId|) + StringSize(|s.salt|)
  {
    hide PrintItem, PrintItems, Head, HeadSize;
    var items := SecretItems(s);
    HeadIsSized(4, 4);
    SmallHead();
    ItemsAreSized(items);
    SizeOfFour(items);
  }

  lemma SmallHead()
    ensures HeadSize(8) == 1 && HeadSize(4) == 1
  {
  }

  lemma SizeOfFour(items: seq<Item>)
    requires |items| == 4
    ensures TotalSize(items) == ItemSize(items[0]) + ItemSize(items[1]) + ItemSize(items[2]) + ItemSize(items[3])
  {
    hide ItemSize;
    assert items[1..][1..] == items[2..] && items[2..][1..] == items[3..] && items[3..][1..] == items[4..];
    assert TotalSize(items[2..]) == ItemSize(items[2]) + TotalSize(items[3..]);
    assert TotalSize(items[3..]) == ItemSize(items[3]) + TotalSize(items[4..]);
  }

  lemma SizeOfEight(items: seq<Item>)
    requires |items| == 8
    ensures TotalSize(items) == ItemSize(items[0]) + ItemSize(items[1]) + ItemSize(items[2]) + ItemSize(items[3])
                              + ItemSize(items[4]) + ItemSize(items[5]) + ItemSize(items[6]) + ItemSize(items[7])
  {
    hide ItemSize;
    assert items[1..][1..] == items[2..] && items[2..][1..] == items[3..] && items[3..][1..] == items[4..];
    SizeOfFour(items[4..]);
    assert TotalSize(items[1..]) == ItemSize(items[1]) + TotalSize(items[2..]);
    assert TotalSize(items[2..]) == ItemSize(items[2]) + TotalSize(items[3..]);
    assert TotalSize(items[3..]) == ItemSize(items[3]) + TotalSize(items[4..]);
  }
}
