/** Lower-case hexadecimal, as `printf("%02x")` writes it. */
module Hex {
  import opened Basics

  function Digit(n: nat): char
    requires n < 16
  {
    if n < 10 then '0' + n as char else 'a' + (n - 10) as char
  }

  function DigitValue(c: char): Option<nat> {
    if '0' <= c <= '9' then Some((c - '0') as nat)
    else if 'a' <= c <= 'f' then Some((c - 'a') as nat + 10)
    else None
  }

  function OfByte(b: byte): string {
    [Digit(b as nat / 16), Digit(b as nat % 16)]
  }

  function OfBytes(bs: seq<byte>): (s: string)
    ensures |s| == 2 * |bs|
  {
    if bs == [] then "" else OfBytes(bs[..|bs| - 1]) + OfByte(bs[|bs| - 1])
  }

  /** The bytes a string of digit pairs stands for. */
  function Decode(s: string): Option<seq<byte>> {
    if s == "" then Some([])
    else if |s| == 1 then None
    else match (Decode(s[..|s| - 2]), DigitValue(s[|s| - 2]), DigitValue(s[|s| - 1]))
      case (Some(front), Some(high), Some(low)) =>
        if high < 16 && low < 16 then Some(front + [(16 * high + low) as byte]) else None
      case _ => None
  }

  lemma DigitReadsBack(n: nat)
    requires n < 16
    ensures DigitValue(Digit(n)) == Some(n)
  {
  }

  lemma {:induction false} OfBytesReadsBack(bs: seq<byte>)
    ensures Decode(OfBytes(bs)) == Some(bs)
  {
    hide Decode, OfByte;
    if bs == [] {
      NothingReadsBack();
    } else {
      OfBytesReadsBack(bs[..|bs| - 1]);
      OneMoreReadsBack(OfBytes(bs[..|bs| - 1]), bs[..|bs| - 1], bs[|bs| - 1]);
      assert bs == bs[..|bs| - 1] + [bs[|bs| - 1]];
    }
  }

  lemma NothingReadsBack()
    ensures Decode("") == Some([])
  {
  }

  lemma OneMoreReadsBack(digits: string, front: seq<byte>, b: byte)
    requires Decode(digits) == Some(front)
    ensures Decode(digits + OfByte(b)) == Some(front + [b])
  {
    hide Digit, DigitValue;
    DigitReadsBack(b as nat / 16);
    DigitReadsBack(b as nat % 16);
    var s := digits + OfByte(b);
    assert s[..|s| - 2] == digits;
  }

  /** Two secrets never print as the same digits. */
  lemma OfBytesIsInjective(a: seq<byte>, b: seq<byte>)
    requires OfBytes(a) == OfBytes(b)
    ensures a == b
  {
    OfBytesReadsBack(a);
    OfBytesReadsBack(b);
  }

  /** Each byte is two of these digits, the high one first. */
  lemma {:induction false} OfBytesAt(bs: seq<byte>, i: nat)
    requires i < |bs|
    ensures OfBytes(bs)[2 * i] == "0123456789abcdef"[bs[i] as nat / 16]
    ensures OfBytes(bs)[2 * i + 1] == "0123456789abcdef"[bs[i] as nat % 16]
  {
    hide Digit;
    if i < |bs| - 1 {
      OfBytesAt(bs[..|bs| - 1], i);
    } else {
      DigitIs(bs[i] as nat / 16);
      DigitIs(bs[i] as nat % 16);
    }
  }

  lemma DigitIs(n: nat)
    requires n < 16
    ensures Digit(n) == "0123456789abcdef"[n]
  {
  }
}
