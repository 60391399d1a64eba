/** Reading a secret from standard input. */
module Console {
  import opened Basics

  const NEWLINE: byte := 0x0a

  /** What `isatty` and `errno` say about standard input. */
  datatype Terminal = Tty | NotTty | Unknown

  class Stdin {
    const terminal: Terminal
    /** The bytes still to come; the end of input follows them. */
    var pending: seq<byte>

    constructor (terminal: Terminal, pending: seq<byte>)
      ensures this.terminal == terminal && this.pending == pending
    {
      this.terminal, this.pending := terminal, pending;
    }
  }

  /** The length of the first line, its newline included. */
  function LineLength(s: seq<byte>): (n: nat)
    ensures n <= |s| && (s != [] ==> n > 0)
    ensures NEWLINE !in s[..n] || (n > 0 && s[n - 1] == NEWLINE && NEWLINE !in s[..n - 1])
    ensures NEWLINE !in s[..n] ==> n == |s|
  {
    if s == [] then 0
    else if s[0] == NEWLINE then 1
    else 1 + LineLength(s[1..])
  }

  lemma {:induction false} LineLengthAt(s: seq<byte>, tail: seq<byte>)
    requires NEWLINE !in s
    ensures LineLength(s + [NEWLINE] + tail) == |s| + 1
  {
    if s != [] {
      assert (s + [NEWLINE] + tail)[1..] == s[1..] + [NEWLINE] + tail;
      LineLengthAt(s[1..], tail);
    }
  }

  /** How many bytes `fgets` with this size takes. */
  function Taken(pending: seq<byte>, size: nat): (n: nat)
    requires size > 0
    ensures n <= |pending| && n < size
  {
    if LineLength(pending) < size then LineLength(pending) else size - 1
  }

  /** `fgets`: false stands for NULL. */
  method Fgets(stdin: Stdin, buffer: array<byte>, size: nat) returns (ok: bool)
    requires 2 <= size <= buffer.Length
    modifies stdin, buffer
    ensures ok <==> old(stdin.pending) != []
    ensures stdin.pending == old(stdin.pending)[Taken(old(stdin.pending), size)..]
    ensures ok ==>
      var n := Taken(old(stdin.pending), size);
      buffer[..n] == old(stdin.pending)[..n] && buffer[n] == 0
  {
    hide LineLength;
    ghost var all := stdin.pending;
    assert all[0..] == all;
    var i, ended := 0, false;
    while i < size - 1 && stdin.pending != [] && !ended
      invariant i <= size - 1 && i <= |all| && stdin.pending == all[i..]
      invariant forall j :: 0 <= j < i ==> buffer[j] == all[j]
      invariant LineLength(all) == if ended then i else i + LineLength(all[i..])
      invariant ended ==> i > 0
    {
      LineStep(all, i);
      buffer[i] := stdin.pending[0];
      stdin.pending := stdin.pending[1..];
      ended := buffer[i] == NEWLINE;
      i := i + 1;
    }
    if i == 0 {
      return false;
    }
    buffer[i] := 0;
    return true;
  }

  lemma LineStep(s: seq<byte>, i: nat)
    requires i < |s|
    ensures LineLength(s[i..]) == if s[i] == NEWLINE then 1 else 1 + LineLength(s[i + 1..])
    ensures s[i..][1..] == s[i + 1..]
  {
    assert s[i..][1..] == s[i + 1..];
  }

  /** `strlen` of a buffer that holds a NUL. */
  method StrLen(buffer: array<byte>) returns (n: nat)
    requires 0 in buffer[..]
    ensures n < buffer.Length && buffer[n] == 0 && buffer[..n] == CString(buffer[..])
  {
    n := 0;
    while buffer[n] != 0
      invariant n < buffer.Length && 0 !in buffer[..n] && 0 in buffer[n..]
      decreases buffer.Length - n
    {
      n := n + 1;
    }
    CStringUnique(buffer[..], buffer[..n]);
  }

  datatype Prompted = Prompted(secret: CStr, rest: seq<byte>)

  /** What `prompt_for_secret` leaves in its buffer and on standard input.  Off a terminal, a line
      that starts with a NUL makes the code look at the byte before its buffer. */
  function Prompt(terminal: Terminal, pending: seq<byte>, size: nat): Outcome<Prompted>
    requires size >= 2
  {
    if terminal.Unknown? || pending == [] then Exit(EXIT_UNABLE_TO_GET_USER_SECRET)
    else
      var n := Taken(pending, size);
      var text := CString(pending[..n]);
      if text == [] then
        if terminal.Tty? then Done(Prompted([], pending[n..])) else Undefined
      else if text[|text| - 1] == NEWLINE then Done(Prompted(text[..|text| - 1], pending[n..]))
      else Done(Prompted(text, pending[n..]))
  }

  method PromptForSecret(stdin: Stdin, size: nat, buffer: array<byte>) returns (o: Outcome<()>)
    requires 2 <= size < buffer.Length
    modifies stdin, buffer
    ensures match Prompt(stdin.terminal, old(stdin.pending), size)
      case Done(Prompted(secret, rest)) =>
        o == Done(()) && 0 in buffer[..] && CString(buffer[..]) == secret && stdin.pending == rest
      case Exit(code) => o == Exit(code)
      case Undefined => o.Undefined?
  {
    if stdin.terminal.Unknown? {
      return Exit(EXIT_UNABLE_TO_GET_USER_SECRET);
    }
    ghost var all := stdin.pending;
    var ok := Fgets(stdin, buffer, size);
    if !ok {
      return Exit(EXIT_UNABLE_TO_GET_USER_SECRET);
    }
    ghost var n := Taken(all, size);
    assert buffer[n] == 0 && buffer[n] in buffer[..];
    SameCString(buffer[..], all[..n], n);
    var length := StrLen(buffer);
    if length == 0 {
      if stdin.terminal.NotTty? {
        return Undefined;
      }
    } else if buffer[length - 1] == NEWLINE {
      ghost var text := buffer[..length];
      buffer[length - 1] := 0;
      assert buffer[length - 1] in buffer[..];
      assert buffer[..length - 1] == text[..length - 1];
      CStringUnique(buffer[..], buffer[..length - 1]);
    }
    return Done(());
  }

  lemma SameCString(buffer: seq<byte>, s: seq<byte>, n: nat)
    requires n < |buffer| && buffer[n] == 0 && buffer[..n] == s
    ensures CString(buffer) == CString(s)
  {
    var c := CString(s);
    assert c <= buffer;
    CStringUnique(buffer, c);
  }

  /** A line without NULs, off or on a terminal: its first `size - 1` bytes are the secret, and the
      newline goes with it exactly when the line has at most `size - 2` bytes. */
  lemma PromptLine(terminal: Terminal, s: CStr, tail: seq<byte>, size: nat)
    requires size >= 2 && !terminal.Unknown? && NEWLINE !in s
    ensures Prompt(terminal, s + [NEWLINE] + tail, size)
         == Done(if |s| <= size - 2 then Prompted(s, tail)
                 else Prompted(s[..size - 1], s[size - 1..] + [NEWLINE] + tail))
  {
    var pending := s + [NEWLINE] + tail;
    LineLengthAt(s, tail);
    if |s| <= size - 2 {
      var line := s + [NEWLINE];
      assert pending[..|s| + 1] == line && pending[|s| + 1..] == tail;
      CStringUnique(line, line);
      assert line[..|s|] == s;
    } else {
      var part := s[..size - 1];
      assert pending[..size - 1] == part && pending[size - 1..] == s[size - 1..] + [NEWLINE] + tail;
      CStringUnique(part, part);
      assert part[size - 2] in s;
    }
  }

  lemma {:induction false} LineWithoutEnd(s: seq<byte>)
    requires NEWLINE !in s
    ensures LineLength(s) == |s|
  {
    if s != [] {
      LineWithoutEnd(s[1..]);
    }
  }

  /** The last line of an input that ends without a newline: its first `size - 1` bytes. */
  lemma PromptLastLine(terminal: Terminal, s: CStr, size: nat)
    requires size >= 2 && !terminal.Unknown? && s != [] && 0x0a !in s
    ensures Prompt(terminal, s, size)
         == Done(if |s| <= size - 1 then Prompted(s, []) else Prompted(s[..size - 1], s[size - 1..]))
  {
    LineWithoutEnd(s);
    var part := if |s| <= size - 1 then s else s[..size - 1];
    assert s[..|part|] == part && (|s| <= size - 1 ==> s[|part|..] == []);
    CStringUnique(part, part);
    assert part[|part| - 1] in s;
  }

  /** A NUL ends the secret; the line is taken to its end all the same. */
  lemma PromptWithNul(terminal: Terminal, s: CStr, junk: seq<byte>, tail: seq<byte>, size: nat)
    requires !terminal.Unknown? && s != [] && 0x0a !in s && 0x0a !in junk && |s| + |junk| + 2 <= size - 1
    ensures Prompt(terminal, s + [0] + junk + [0x0a] + tail, size) == Done(Prompted(s, tail))
  {
    var line := s + [0] + junk;
    var pending := line + [NEWLINE] + tail;
    LineLengthAt(line, tail);
    var taken := line + [NEWLINE];
    assert pending[..|taken|] == taken && pending[|taken|..] == tail;
    assert s <= taken && taken[|s|] == 0;
    CStringUnique(taken, s);
    assert s[|s| - 1] in s;
  }

  /** Standard input that cannot be used or has ended exits 68; a NUL at its very start is undefined off
      a terminal; anything else gives a secret, which is empty on a terminal after such a NUL. */
  lemma PromptUndefinedExactly(terminal: Terminal, pending: seq<byte>, size: nat)
    requires size >= 2
    ensures var o := Prompt(terminal, pending, size);
      && (o.Exit? <==> terminal.Unknown? || pending == []) && (o.Exit? ==> o.code == 68)
      && (o.Undefined? <==> terminal.NotTty? && pending != [] && pending[0] == 0)
      && (terminal.Tty? && pending != [] && pending[0] == 0 ==> o.value.secret == [])
  {
    if pending != [] {
      var n := Taken(pending, size);
      assert n > 0;
      assert pending[..n][0] == pending[0];
    }
  }
}
