/** What every run of the boot hook keeps, derived from the next-call function alone. */
module BootHookRuns {
  import opened Basics
  import opened BootHook

  /** A setup has one complete run. */
  lemma {:induction false} RunIsUnique(s: Setup, a: seq<Call>, b: seq<Call>, n: nat)
    requires IsCompleteRun(s, a) && IsRun(s, b) && n <= |b|
    ensures n <= |a| && a[..n] == b[..n]
    ensures IsCompleteRun(s, b) && n == |b| ==> a == b
  {
    hide Expected;
    if n > 0 {
      RunIsUnique(s, a, b, n - 1);
      assert a[..|a|] == a;
      assert b[..n] == b[..n - 1] + [b[n - 1]];
      assert n - 1 < |a| ==> a[..n] == a[..n - 1] + [a[n - 1]];
    }
    assert b[..|b|] == b;
  }

  /** At most as many tries as the setting allows: the number set when it is one above zero, and 3 for
      every other setting. */
  predicate Allowed(s: Setup, tries: nat) {
    match s.attempts
    case Number(n) => tries <= if n > 0 then n else 3
    case NotANumber => tries <= 3
    case Unset => tries <= 3
  }

  lemma AllowedExactly(s: Setup, tries: nat)
    ensures Allowed(s, tries) <==> tries <= s.Limit()
  {
  }

  /** The number of tries on an entry. */
  function Tries(calls: seq<Call>, entry: nat): nat {
    if calls == [] then 0
    else Tries(calls[..|calls| - 1], entry) + if calls[|calls| - 1].entry == entry then 1 else 0
  }

  lemma RunPrefix(s: Setup, calls: seq<Call>, n: nat)
    requires IsRun(s, calls) && n <= |calls|
    ensures IsRun(s, calls[..n])
  {
    hide Expected;
    forall k | 0 <= k < n
      ensures Expected(s, calls[..n][..k]) == Some(calls[..n][k])
    {
      assert calls[..n][..k] == calls[..k];
    }
  }

  /** Up to any call, the call's own entry has been tried as often as its attempt number says, within
      the limit; every file before it was tried, between once and the limit; nothing after it was. */
  ghost predicate TriedInOrder(s: Setup, calls: seq<Call>) {
    calls != [] ==>
      var last := calls[|calls| - 1];
      && last.entry < |s.entries| && s.entries[last.entry].isFile
      && 1 <= last.attempt && Allowed(s, last.attempt) && Tries(calls, last.entry) == last.attempt
      && (forall e :: 0 <= e < last.entry ==>
            if s.entries[e].isFile then 1 <= Tries(calls, e) && Allowed(s, Tries(calls, e)) else Tries(calls, e) == 0)
      && (forall e :: e > last.entry ==> Tries(calls, e) == 0)
  }

  lemma TriesStep(calls: seq<Call>, c: Call, e: nat)
    ensures Tries(calls + [c], e) == Tries(calls, e) + if c.entry == e then 1 else 0
  {
    assert (calls + [c])[..|calls|] == calls;
  }

  lemma InOrderStep(s: Setup, calls: seq<Call>, c: Call)
    requires TriedInOrder(s, calls) && Expected(s, calls) == Some(c)
    ensures TriedInOrder(s, calls + [c])
  {
    hide NextPassphrase, Tries;
    forall e: nat
      ensures Tries(calls + [c], e) == Tries(calls, e) + if c.entry == e then 1 else 0
    {
      TriesStep(calls, c, e);
    }
    if calls == [] {
      NoTries();
    }
  }

  lemma NoTries()
    ensures forall e :: Tries([], e) == 0
  {
  }

  lemma {:induction false} KeyfilesInOrder(s: Setup, calls: seq<Call>)
    requires IsRun(s, calls)
    ensures TriedInOrder(s, calls)
  {
    hide Expected, TriedInOrder;
    if calls == [] {
      NothingTried(s);
    } else {
      var n := |calls| - 1;
      RunPrefix(s, calls, n);
      KeyfilesInOrder(s, calls[..n]);
      InOrderStep(s, calls[..n], calls[n]);
      assert calls == calls[..n] + [calls[n]];
    }
  }

  lemma NothingTried(s: Setup)
    ensures TriedInOrder(s, [])
  {
  }

  /** All tries on one keyfile come before the tries on the next; a second try follows only exit 33,
      with prompting, within the limit; and nothing follows a success. */
  lemma RetryOnlyAfterBadPassphrase(s: Setup, calls: seq<Call>, k: nat)
    requires IsRun(s, calls) && k + 1 < |calls|
    ensures calls[k].code != 0 && calls[k].entry <= calls[k + 1].entry
    ensures calls[k + 1].entry == calls[k].entry <==>
      calls[k].code == 33 && s.hardcoded.None? && Allowed(s, calls[k].attempt + 1)
    ensures calls[k + 1].attempt == if calls[k + 1].entry == calls[k].entry then calls[k].attempt + 1 else 1
  {
    hide NextPassphrase, NeedsPrompt;
    assert Expected(s, calls[..k + 1]) == Some(calls[k + 1]);
    assert Expected(s, calls[..k]) == Some(calls[k]);
    assert calls[..k + 1][k] == calls[k];
  }

  /** Every keyfile is tried, at most as often as the limit, except exactly those after the one that
      succeeded. */
  lemma CompleteRunTriesEveryKeyfile(s: Setup, calls: seq<Call>, e: nat)
    requires IsCompleteRun(s, calls) && e < |s.entries| && s.entries[e].isFile
    ensures Allowed(s, Tries(calls, e))
    ensures Tries(calls, e) == 0 <==> calls != [] && calls[|calls| - 1].code == 0 && calls[|calls| - 1].entry < e
  {
    hide NextPassphrase;
    KeyfilesInOrder(s, calls);
  }

  /** The number of calls is bounded by the setup alone. */
  lemma RunIsBounded(s: Setup, calls: seq<Call>)
    requires IsRun(s, calls)
    ensures |calls| <= |s.entries| * if s.attempts.Number? && s.attempts.n > 0 then s.attempts.n else 3
  {
    if calls != [] {
      var last := calls[|calls| - 1];
      BoundedByLimit(s, calls);
      LastIsWithin(s, calls);
      Products(last.entry, |s.entries|, s.Limit());
      hide IsRun;
    }
  }

  lemma LastIsWithin(s: Setup, calls: seq<Call>)
    requires IsRun(s, calls) && calls != []
    ensures var last := calls[|calls| - 1]; last.entry < |s.entries| && 1 <= last.attempt <= s.Limit()
  {
    KeyfilesInOrder(s, calls);
    AllowedExactly(s, calls[|calls| - 1].attempt);
    hide Allowed, IsRun, Tries;
  }

  lemma {:induction false} BoundedByLimit(s: Setup, calls: seq<Call>)
    requires IsRun(s, calls) && calls != []
    ensures var last := calls[|calls| - 1]; |calls| <= Most(last.entry, s.Limit(), last.attempt)
  {
    hide IsRun, Setup.Limit, Allowed, Most;
    var n := |calls| - 1;
    LastIsWithin(s, calls);
    if n > 0 {
      RunPrefix(s, calls, n);
      BoundedByLimit(s, calls[..n]);
      LastIsWithin(s, calls[..n]);
      RetryOnlyAfterBadPassphrase(s, calls, n - 1);
      MostGrows(calls[n - 1].entry, calls[n - 1].attempt, calls[n].entry, calls[n].attempt, s.Limit());
    } else {
      MostIsEnough(calls[n].entry, calls[n].attempt, s.Limit());
    }
  }

  /** The most calls there can be up to a try on an entry. */
  function Most(entry: nat, limit: nat, attempt: nat): nat { entry * limit + attempt }

  lemma MostIsEnough(entry: nat, attempt: nat, limit: nat)
    requires attempt >= 1
    ensures 1 <= Most(entry, limit, attempt)
  {
  }

  lemma MostGrows(entry: nat, attempt: nat, next: nat, nextAttempt: nat, limit: nat)
    requires attempt <= limit && nextAttempt >= 1
    requires if next == entry then nextAttempt == attempt + 1 else entry < next
    ensures Most(entry, limit, attempt) + 1 <= Most(next, limit, nextAttempt)
  {
    Products(entry, next, limit);
  }

  lemma {:induction false} Products(a: nat, b: nat, n: nat)
    ensures a < b ==> a * n + n <= b * n
    decreases b
  {
    if a < b {
      assert b * n == (b - 1) * n + n;
      Products(a, b - 1, n);
    }
  }

  // ---------------------------------------------------------------- passphrases

  /** Which calls are prompted for, and with what every call is made.  The passphrase file holds the
      passphrase at each call. */
  lemma PromptingTrace(s: Setup, calls: seq<Call>, k: nat)
    requires IsRun(s, calls) && k < |calls|
    ensures calls[k].file == calls[k].passphrase
    ensures s.hardcoded.Some? ==> !calls[k].prompted
    ensures s.hardcoded.None? && !s.samePassphrase ==> calls[k].prompted
    ensures s.hardcoded.None? && s.samePassphrase ==> (calls[k].prompted <==> k == 0 || calls[k - 1].code == 33)
    ensures calls[k].prompted ==> calls[k].passphrase == s.typed(Prompts(calls[..k]))
    ensures !calls[k].prompted && k > 0 ==> calls[k].passphrase == calls[k - 1].passphrase
    ensures !calls[k].prompted && k == 0 ==> s.hardcoded == Some(calls[k].passphrase)
  {
    assert Expected(s, calls[..k]) == Some(calls[k]);
    hide NextEntry, Prompts;
  }

  /** With a fixed passphrase every keyfile is tried once, with that passphrase. */
  lemma {:induction false} NeverPrompting(s: Setup, calls: seq<Call>, k: nat)
    requires IsRun(s, calls) && k < |calls| && s.hardcoded.Some?
    ensures calls[k].attempt == 1 && !calls[k].prompted && s.hardcoded == Some(calls[k].passphrase)
    ensures k > 0 ==> calls[k - 1].entry < calls[k].entry
  {
    hide Expected;
    PromptingTrace(s, calls, k);
    if k > 0 {
      NeverPrompting(s, calls, k - 1);
      RetryOnlyAfterBadPassphrase(s, calls, k - 1);
    } else {
      FirstAttempt(s, calls);
    }
  }

  lemma FirstAttempt(s: Setup, calls: seq<Call>)
    requires IsRun(s, calls) && calls != []
    ensures calls[0].attempt == 1
  {
    assert Expected(s, calls[..0]) == Some(calls[0]);
  }

  /** When every call is prompted for, the `k`-th call uses the `k`-th line typed. */
  lemma {:induction false} AlwaysPrompting(s: Setup, calls: seq<Call>, k: nat)
    requires IsRun(s, calls) && k <= |calls| && s.hardcoded.None? && !s.samePassphrase
    ensures Prompts(calls[..k]) == k
    ensures k < |calls| ==> calls[k].passphrase == s.typed(k)
  {
    hide Expected;
    if k > 0 {
      AlwaysPrompting(s, calls, k - 1);
      PromptingTrace(s, calls, k - 1);
      assert calls[..k] == calls[..k - 1] + [calls[k - 1]];
      assert calls[..k][..k - 1] == calls[..k - 1];
    }
    if k < |calls| {
      PromptingTrace(s, calls, k);
    }
  }

  /** The calls before the `k`-th that were prompted for. */
  function PromptedBefore(calls: seq<Call>, k: nat): set<nat>
    requires k <= |calls|
  {
    set j: nat | j < k && calls[j].prompted
  }

  /** A call that is prompted for uses the next line typed: the one whose number is that of the prompts
      before it. */
  lemma NextLineTyped(s: Setup, calls: seq<Call>, k: nat)
    requires IsRun(s, calls) && k < |calls| && calls[k].prompted
    ensures calls[k].passphrase == s.typed(|PromptedBefore(calls, k)|)
  {
    hide Expected, PromptedBefore;
    PromptingTrace(s, calls, k);
    PromptsAreCounted(calls, k);
  }

  lemma {:induction false} PromptsAreCounted(calls: seq<Call>, k: nat)
    requires k <= |calls|
    ensures Prompts(calls[..k]) == |PromptedBefore(calls, k)|
  {
    if k == 0 {
      assert PromptedBefore(calls, 0) == {};
    } else {
      PromptsAreCounted(calls, k - 1);
      assert calls[..k][..k - 1] == calls[..k - 1];
      assert PromptedBefore(calls, k) == PromptedBefore(calls, k - 1) + if calls[k - 1].prompted then {k - 1} else {};
    }
  }
}
