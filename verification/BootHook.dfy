/** The boot hook: keyfiles tried in turn, with a passphrase prompted for, carried over or fixed. */
module BootHook {
  import opened Basics

  const NO_DEVICES: nat := 34
  const BAD_PASSPHRASE: nat := 33
  const DEFAULT_MAX_PASSPHRASE_ATTEMPTS: nat := 3

  /** `encrypted_keyfile_passphrase_attempts` as the shell finds it. */
  datatype Setting = Unset | NotANumber | Number(n: int)

  datatype Prompting = Never | Once | Always

  /** An entry of the keyfile directory, in the order of the two globs. */
  datatype Entry = Entry(path: CStr, isFile: bool)

  /** The variables and files the hook starts from, the lines that will be typed, and the exit
      codes that the calls of `enumerate` and `generate` will give, in order. */
  datatype Setup = Setup(
    enumerateCodes: nat -> nat,
    doNotPromptForAuthenticator: bool,
    hardcoded: Option<CStr>,
    samePassphrase: bool,
    attempts: Setting,
    entries: seq<Entry>,
    typed: nat -> CStr,
    generateCodes: nat -> nat)
  {
    function Mode(): Prompting {
      if hardcoded.Some? then Never else if samePassphrase then Once else Always
    }

    /** At least one attempt, whatever the setting says. */
    function Limit(): (n: nat)
      ensures n >= 1
    {
      if attempts.Number? && attempts.n > 0 then attempts.n else DEFAULT_MAX_PASSPHRASE_ATTEMPTS
    }
  }

  /** One call of `generate`: on which entry, its number among the tries there, whether the passphrase
      was just typed, what it is, what the passphrase file holds, and the exit code. */
  datatype Call = Call(entry: nat, attempt: nat, prompted: bool, passphrase: CStr, file: CStr, code: nat)

  // ---------------------------------------------------------------- the next call, from the last one

  function NextFile(entries: seq<Entry>, i: nat): (j: nat)
    requires i <= |entries|
    ensures i <= j <= |entries| && (j < |entries| ==> entries[j].isFile)
    ensures forall k :: i <= k < j ==> !entries[k].isFile
    decreases |entries| - i
  {
    if i == |entries| || entries[i].isFile then i else NextFile(entries, i + 1)
  }

  predicate Retries(s: Setup, last: Call) {
    last.code == BAD_PASSPHRASE && s.Mode() != Never && last.attempt < s.Limit()
  }

  predicate NeedsPrompt(s: Setup, calls: seq<Call>) {
    match s.Mode()
    case Never => false
    case Always => true
    case Once => calls == [] || calls[|calls| - 1].code == BAD_PASSPHRASE
  }

  function Prompts(calls: seq<Call>): nat {
    if calls == [] then 0
    else Prompts(calls[..|calls| - 1]) + if calls[|calls| - 1].prompted then 1 else 0
  }

  /** The entry a call would be on after these calls, or the end of the list. */
  function NextEntry(s: Setup, calls: seq<Call>): (i: nat)
    ensures i <= |s.entries| || (calls != [] && i == calls[|calls| - 1].entry)
  {
    if calls == [] then NextFile(s.entries, 0)
    else
      var last := calls[|calls| - 1];
      if Retries(s, last) then last.entry
      else if last.entry + 1 <= |s.entries| then NextFile(s.entries, last.entry + 1)
      else |s.entries|
  }

  function NextPassphrase(s: Setup, calls: seq<Call>): CStr {
    if NeedsPrompt(s, calls) then s.typed(Prompts(calls))
    else if calls == [] then s.hardcoded.value
    else calls[|calls| - 1].passphrase
  }

  /** The call that must follow `calls`; None when the hook must stop. */
  function Expected(s: Setup, calls: seq<Call>): Option<Call> {
    var i := NextEntry(s, calls);
    if i >= |s.entries| || (calls != [] && calls[|calls| - 1].code == 0) then None
    else
      var passphrase := NextPassphrase(s, calls);
      Some(Call(
        i,
        if calls != [] && Retries(s, calls[|calls| - 1]) then calls[|calls| - 1].attempt + 1 else 1,
        NeedsPrompt(s, calls),
        passphrase,
        passphrase,
        s.generateCodes(|calls|)))
  }

  /** Calls each of which is the one expected after those before it. */
  predicate IsRun(s: Setup, calls: seq<Call>) {
    forall k :: 0 <= k < |calls| ==> Expected(s, calls[..k]) == Some(calls[k])
  }

  predicate IsCompleteRun(s: Setup, calls: seq<Call>) {
    IsRun(s, calls) && Expected(s, calls).None?
  }

  lemma RunExtends(s: Setup, calls: seq<Call>, c: Call)
    requires IsRun(s, calls) && Expected(s, calls) == Some(c)
    ensures IsRun(s, calls + [c])
    ensures Prompts(calls + [c]) == Prompts(calls) + if c.prompted then 1 else 0
  {
    hide Expected;
    var more := calls + [c];
    assert more[..|calls|] == calls;
    forall k | 0 <= k < |more|
      ensures Expected(s, more[..k]) == Some(more[k])
    {
      if k < |calls| {
        assert more[..k] == calls[..k];
      }
    }
  }

  /** A call made the way the next one is expected. */
  lemma CallIsExpected(s: Setup, calls: seq<Call>, c: Call)
    requires c.entry < |s.entries| && c.entry == NextEntry(s, calls)
    requires calls != [] ==> calls[|calls| - 1].code != 0
    requires c.attempt == if calls != [] && Retries(s, calls[|calls| - 1]) then calls[|calls| - 1].attempt + 1 else 1
    requires c.prompted == NeedsPrompt(s, calls)
    requires c.passphrase == c.file == if c.prompted then s.typed(Prompts(calls)) else NextPassphrase(s, calls)
    requires c.code == s.generateCodes(|calls|)
    ensures Expected(s, calls) == Some(c)
  {
    hide NextEntry, Prompts, Retries;
  }

  /** What a call decides about the one after it. */
  lemma AfterCall(s: Setup, calls: seq<Call>, c: Call)
    requires c.entry < |s.entries|
    ensures var more := calls + [c];
      && NextEntry(s, more) == (if Retries(s, c) then c.entry else NextFile(s.entries, c.entry + 1))
      && NeedsPrompt(s, more) == (s.Mode() == Always || (s.Mode() == Once && c.code == BAD_PASSPHRASE))
      && (!NeedsPrompt(s, more) ==> NextPassphrase(s, more) == c.passphrase)
      && (c.code == 0 ==> Expected(s, more).None?)
  {
  }

  // ---------------------------------------------------------------- the hook

  class Hook {
    var passphrase: Option<CStr>
    var passphraseFile: CStr
    var cryptkey: bool
    var prompts: nat
    ghost var calls: seq<Call>

    constructor (hardcoded: Option<CStr>)
      ensures passphrase == hardcoded && passphraseFile == [] && !cryptkey && prompts == 0 && calls == []
    {
      passphrase, passphraseFile, cryptkey, prompts, calls := hardcoded, [], false, 0, [];
    }

    /** The passphrase variable holds what the next call will use, unless that is to be typed; in
        `Always` mode the next keyfile clears it first. */
    ghost predicate Ready(s: Setup)
      reads this
    {
      && prompts == Prompts(calls) && passphraseFile == [] && !cryptkey
      && IsRun(s, calls) && (calls != [] ==> calls[|calls| - 1].code != 0)
      && (s.Mode() == Always || passphrase == if NeedsPrompt(s, calls) then None else Some(NextPassphrase(s, calls)))
    }

    /** One try: the prompt if there is no passphrase, and the call with the passphrase in its file. */
    method TryOnce(s: Setup, i: nat, attempt: nat, madeCalls: nat) returns (result: nat)
      requires Ready(s) && i < |s.entries| && madeCalls == |calls| && NextEntry(s, calls) == i
      requires attempt == if calls != [] && Retries(s, calls[|calls| - 1]) then calls[|calls| - 1].attempt + 1 else 1
      requires passphrase == if NeedsPrompt(s, calls) then None else Some(NextPassphrase(s, calls))
      modifies this
      ensures |calls| == madeCalls + 1
      ensures var c := calls[madeCalls]; c.entry == i && c.attempt == attempt && c.code == result
      ensures IsRun(s, calls) && prompts == Prompts(calls) && passphraseFile == [] && !cryptkey
      ensures result == 0 ==> Expected(s, calls).None?
      ensures NextEntry(s, calls) == if Retries(s, calls[madeCalls]) then i else NextFile(s.entries, i + 1)
      ensures NeedsPrompt(s, calls) == (s.Mode() == Always || (s.Mode() == Once && result == BAD_PASSPHRASE))
      ensures passphrase == Some(calls[madeCalls].passphrase)
      ensures !NeedsPrompt(s, calls) ==> passphrase.value == NextPassphrase(s, calls)
    {
      hide NextPassphrase, Prompts, Expected, NextEntry, NeedsPrompt, IsRun;
      var prompted := passphrase.None?;
      if prompted {
        passphrase := Some(s.typed(prompts));
        prompts := prompts + 1;
      }
      passphraseFile := passphrase.value;
      result := s.generateCodes(madeCalls);
      ghost var call := Call(i, attempt, prompted, passphrase.value, passphraseFile, result);
      CallIsExpected(s, calls, call);
      RunExtends(s, calls, call);
      AfterCall(s, calls, call);
      calls := calls + [call];
      passphraseFile := [];
    }

    /** Every try on one keyfile; true when `generate` succeeded. */
    method TryKeyfile(s: Setup, i: nat, callsSoFar: nat) returns (done: bool, madeCalls: nat)
      requires Ready(s) && i < |s.entries| && s.entries[i].isFile && callsSoFar == |calls|
      requires NextEntry(s, calls) == i && (calls != [] ==> !Retries(s, calls[|calls| - 1]))
      modifies this
      ensures madeCalls == |calls| > 0
      ensures done ==> IsCompleteRun(s, calls) && calls[|calls| - 1].code == 0 && cryptkey && passphraseFile == []
      ensures done ==> prompts == Prompts(calls) && passphrase == Some(calls[|calls| - 1].passphrase)
      ensures !done ==> Ready(s) && !Retries(s, calls[|calls| - 1])
      ensures !done ==> NextEntry(s, calls) == NextFile(s.entries, i + 1)
    {
      hide NextPassphrase, Prompts, Expected, NextEntry, NeedsPrompt, IsRun;
      madeCalls := callsSoFar;
      AlwaysPrompts(s, calls);
      var tries, exitLoop := 0, false;
      if s.Mode() == Always {
        passphrase := None;
      }
      while !exitLoop
        invariant madeCalls == |calls| && tries <= s.Limit()
        invariant Ready(s)
        invariant !exitLoop ==> NextEntry(s, calls) == i && tries < s.Limit()
        invariant !exitLoop ==> passphrase == if NeedsPrompt(s, calls) then None else Some(NextPassphrase(s, calls))
        invariant !exitLoop ==>
          tries == if calls != [] && Retries(s, calls[|calls| - 1]) then calls[|calls| - 1].attempt else 0
        invariant exitLoop ==> calls != [] && !Retries(s, calls[|calls| - 1])
        invariant exitLoop ==> NextEntry(s, calls) == NextFile(s.entries, i + 1)
        decreases !exitLoop, s.Limit() - tries
      {
        tries := tries + 1;
        var result := TryOnce(s, i, tries, madeCalls);
        madeCalls := madeCalls + 1;
        if result == 0 {
          cryptkey := true;
          return true, madeCalls;
        } else if result == BAD_PASSPHRASE && s.Mode() != Never {
          passphrase := None;
        } else {
          exitLoop := true;
        }
        if tries >= s.Limit() {
          exitLoop := true;
        }
      }
      return false, madeCalls;
    }

    /** `run_hook`: the calls it makes are the one complete run of its setup, and none when `enumerate`
        found no device and either may not ask for one or found none again. */
    method Run(s: Setup)
      requires passphrase == s.hardcoded && passphraseFile == [] && !cryptkey && prompts == 0 && calls == []
      modifies this
      ensures passphraseFile == []
      ensures cryptkey <==> calls != [] && calls[|calls| - 1].code == 0
      ensures
        if s.enumerateCodes(0) == 34 && (s.doNotPromptForAuthenticator || s.enumerateCodes(1) == 34)
        then calls == [] && passphrase == s.hardcoded
        else
          && IsCompleteRun(s, calls) && prompts == Prompts(calls)
          && passphrase == if cryptkey then Some(calls[|calls| - 1].passphrase) else None
    {
      hide NextPassphrase, Prompts, Expected, NextEntry, NeedsPrompt, IsRun;
      if s.enumerateCodes(0) == NO_DEVICES {
        if s.doNotPromptForAuthenticator {
          return;
        }
        if s.enumerateCodes(1) == NO_DEVICES {
          return;
        }
      }
      AtStart(s);
      var madeCalls := 0;
      for i := 0 to |s.entries|
        invariant Ready(s) && madeCalls == |calls|
        invariant NextEntry(s, calls) == NextFile(s.entries, i)
        invariant calls != [] ==> !Retries(s, calls[|calls| - 1])
      {
        if s.entries[i].isFile {
          var done;
          done, madeCalls := TryKeyfile(s, i, madeCalls);
          if done {
            return;
          }
        }
      }
      AtEnd(s, calls);
      passphrase := None;
    }
  }

  lemma AtEnd(s: Setup, calls: seq<Call>)
    ensures NextEntry(s, calls) == |s.entries| ==> Expected(s, calls).None?
  {
  }

  lemma AlwaysPrompts(s: Setup, calls: seq<Call>)
    ensures s.Mode() == Always ==> NeedsPrompt(s, calls)
  {
  }

  lemma AtStart(s: Setup)
    ensures IsRun(s, []) && Prompts([]) == 0 && NextEntry(s, []) == NextFile(s.entries, 0)
    ensures NeedsPrompt(s, []) == (s.Mode() != Never)
    ensures s.Mode() == Never ==> NextPassphrase(s, []) == s.hardcoded.value
  {
  }
}
