/** Bytes, C strings and the ways a run of the program can end. */
module Basics {

  newtype byte = b: int | 0 <= b < 256

  /** One more than the largest `uint64_t` or `size_t`. */
  const TWO_TO_64: nat := 0x1_0000_0000_0000_0000

  type uint64 = n: nat | n < TWO_TO_64

  type int32 = n: int | -0x8000_0000 <= n < 0x8000_0000

  /** A buffer together with its `size_t` length; a NULL pointer of size 0 is the empty blob. */
  type Blob = s: seq<byte> | |s| < TWO_TO_64

  /** The characters of a C string, its NUL left off. */
  type CStr = s: seq<byte> | 0 !in s

  datatype Option<+T> = None | Some(value: T)

  /** How a call ends: it returns, it leaves the process through `err`/`errx`/`exit`,
      or it runs into something C leaves undefined. */
  datatype Outcome<+T> = Done(value: T) | Exit(code: nat) | Undefined

  const EXIT_SUCCESS := 0
  const EXIT_BAD_INVOCATION := 0x20
  const EXIT_BAD_PASSPHRASE := 0x21
  const EXIT_NO_DEVICES := 0x22
  const EXIT_NO_VALID_AUTHENTICATOR := 0x23
  const EXIT_DESERIALIZATION_ERROR := 0x24
  const EXIT_BAD_PIN := 0x25
  const EXIT_OUT_OF_MEMORY := 0x40
  const EXIT_AUTHENTICATOR_ERROR := 0x41
  const EXIT_CRYPTOGRAPHY_ERROR := 0x42
  const EXIT_UNABLE_TO_GET_USER_SECRET := 0x44
  const EXIT_PROGRAMMER_ERROR := 0x60

  /** The characters a `char *` denotes: everything before the first NUL. */
  function CString(s: seq<byte>): (c: seq<byte>)
    ensures 0 !in c && c <= s
    ensures |c| < |s| ==> s[|c|] == 0
  {
    if s == [] || s[0] == 0 then [] else [s[0]] + CString(s[1..])
  }

  lemma {:induction false} CStringUnique(s: seq<byte>, c: seq<byte>)
    requires 0 !in c && c <= s
    requires |c| < |s| ==> s[|c|] == 0
    ensures CString(s) == c
  {
    if s != [] && s[0] != 0 {
      CStringUnique(s[1..], c[1..]);
    }
  }

  /** `strndup(s, n)`: at most `n` characters of the C string. */
  function StrNDup(s: seq<byte>, n: nat): (c: seq<byte>)
    ensures c <= s && |c| <= n && 0 !in c
    ensures |c| == n || |c| == |s| || s[|c|] == 0
  {
    var c := CString(s);
    if |c| <= n then c else c[..n]
  }

  /** The bytes of an ASCII literal. */
  function Ascii(s: string): (bs: seq<byte>)
    requires forall i :: 0 <= i < |s| ==> s[i] < 128 as char
    ensures |bs| == |s|
    ensures forall i :: 0 <= i < |s| ==> bs[i] as int == s[i] as int
  {
    seq(|s|, i requires 0 <= i < |s| => s[i] as int as byte)
  }
}
