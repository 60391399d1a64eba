/** From the prompt of ssh-agent to the path of the key: two substitutions of sed. */
module Askpass {

  const CONFIRM := " (will confirm each use)"
  const ENTER := "Enter passphrase for "

  /** `[[:space:]]` in the C locale, a line holding no newline. */
  predicate IsSpace(c: char) {
    c == ' ' || c == '\t' || '\n' < c <= '\r'
  }

  predicate IsSpaces(s: string) {
    forall i :: 0 <= i < |s| ==> IsSpace(s[i])
  }

  predicate StartsAt(s: string, i: nat, word: string) {
    i + |word| <= |s| && s[i..i + |word|] == word
  }

  // ---------------------------------------------------------------- the two expressions

  /** The first expression matches from `i`: the words, then a colon and nothing but spaces to the end
      of the line.  What it matches from the colon on stays. */
  predicate ConfirmMatchesAt(s: string, i: nat) {
    && StartsAt(s, i, CONFIRM)
    && StartsAt(s, i + |CONFIRM|, ":")
    && IsSpaces(s[i + |CONFIRM| + 1..])
  }

  /** The second expression matches from `i`: its words, and a group that is everything up to the last
      colon and not empty.  Only the group stays. */
  predicate EnterMatchesAt(s: string, i: nat) {
    StartsAt(s, i, ENTER) && exists j :: i + |ENTER| < j < |s| && s[j] == ':'
  }

  // ---------------------------------------------------------------- the substitutions

  /** The two expressions; sed replaces the leftmost match. */
  datatype Expression = ConfirmExpression | EnterExpression

  predicate MatchesAt(e: Expression, s: string, i: nat) {
    match e
    case ConfirmExpression => ConfirmMatchesAt(s, i)
    case EnterExpression => EnterMatchesAt(s, i)
  }

  function Leftmost(e: Expression, s: string, i: nat): (m: nat)
    requires i <= |s|
    ensures i <= m <= |s| && (m < |s| ==> MatchesAt(e, s, m))
    ensures forall k :: i <= k < m ==> !MatchesAt(e, s, k)
    decreases |s| - i
  {
    if i == |s| || MatchesAt(e, s, i) then i else Leftmost(e, s, i + 1)
  }

  function DropConfirm(s: string): string {
    var i := Leftmost(ConfirmExpression, s, 0);
    if i == |s| then s else s[..i] + s[i + |CONFIRM|..]
  }

  function LastColon(s: string): (j: int)
    ensures -1 <= j < |s| && (j >= 0 ==> s[j] == ':')
    ensures forall k :: j < k < |s| ==> s[k] != ':'
  {
    if s == "" then -1
    else if s[|s| - 1] == ':' then |s| - 1
    else LastColon(s[..|s| - 1])
  }

  function ExtractPath(s: string): string {
    var i := Leftmost(EnterExpression, s, 0);
    if i == |s| then s
    else
      var j := LastColon(s);
      assert EnterMatchesAt(s, i);
      s[..i] + s[i + |ENTER|..j]
  }

  function FirstNewline(s: string): (i: nat)
    ensures i <= |s| && (i < |s| ==> s[i] == '\n') && '\n' !in s[..i]
  {
    if s == "" || s[0] == '\n' then 0 else 1 + FirstNewline(s[1..])
  }

  /** The keyfile a prompt names: both substitutions, on each line by itself. */
  function Keyfile(prompt: string): string
    decreases |prompt|
  {
    var i := FirstNewline(prompt);
    var line := ExtractPath(DropConfirm(prompt[..i]));
    if i == |prompt| then line else line + "\n" + Keyfile(prompt[i + 1..])
  }

  lemma OneLine(prompt: string)
    requires '\n' !in prompt
    ensures Keyfile(prompt) == ExtractPath(DropConfirm(prompt))
  {
    hide ExtractPath, DropConfirm;
    assert prompt[..|prompt|] == prompt;
  }

  // ---------------------------------------------------------------- theorems

  predicate EndsWith(s: string, word: string) {
    |word| <= |s| && s[|s| - |word|..] == word
  }

  lemma {:induction false} LastColonIs(s: string, j: nat)
    requires j < |s| && s[j] == ':' && forall k :: j < k < |s| ==> s[k] != ':'
    ensures LastColon(s) == j
  {
    if j < |s| - 1 {
      LastColonIs(s[..|s| - 1], j);
    }
  }

  /** Spaces hold no colon, so the colon before them is the last one. */
  lemma LastColonBefore(s: string, spaces: string)
    requires IsSpaces(spaces)
    ensures LastColon(s + ":" + spaces) == |s|
  {
    hide LastColon;
    var t := s + ":" + spaces;
    forall k | |s| < k < |t|
      ensures t[k] != ':'
    {
      assert IsSpace(spaces[k - |s| - 1]);
    }
    LastColonIs(t, |s|);
  }

  lemma ExtractFromPrompt(path: string, spaces: string)
    requires path != "" && IsSpaces(spaces)
    ensures ExtractPath(ENTER + path + ":" + spaces) == path
  {
    var s := ENTER + path + ":" + spaces;
    assert s == (ENTER + path) + ":" + spaces;
    LastColonBefore(ENTER + path, spaces);
    assert s[..|ENTER|] == ENTER;
    assert StartsAt(s, 0, ENTER) && s[|ENTER + path|] == ':';
    assert EnterMatchesAt(s, 0);
    assert s[|ENTER|..|ENTER + path|] == path;
  }

  /** The first expression can match in one place only: where `CONFIRM` ends before the last colon. */
  lemma ConfirmMatchesOnce(s: string, spaces: string, i: nat)
    requires IsSpaces(spaces)
    ensures ConfirmMatchesAt(s + ":" + spaces, i) <==> i + |CONFIRM| == |s| && EndsWith(s, CONFIRM)
  {
    var t := s + ":" + spaces;
    LastColonBefore(s, spaces);
    if ConfirmMatchesAt(t, i) {
      var front := t[..i + |CONFIRM|];
      assert t == front + ":" + t[i + |CONFIRM| + 1..];
      LastColonBefore(front, t[i + |CONFIRM| + 1..]);
      assert s[i..] == CONFIRM;
    }
    if i + |CONFIRM| == |s| && EndsWith(s, CONFIRM) {
      assert t[i..i + |CONFIRM|] == CONFIRM;
      assert t[i + |CONFIRM| + 1..] == spaces;
    }
  }

  lemma DropConfirmExactly(s: string, spaces: string)
    requires IsSpaces(spaces)
    ensures DropConfirm(s + ":" + spaces)
         == if EndsWith(s, CONFIRM) then s[..|s| - |CONFIRM|] + ":" + spaces else s + ":" + spaces
  {
    hide ConfirmMatchesAt, EnterMatchesAt;
    var t := s + ":" + spaces;
    var i := Leftmost(ConfirmExpression, t, 0);
    if i < |t| {
      ConfirmMatchesOnce(s, spaces, i);
    }
    if EndsWith(s, CONFIRM) {
      var j := |s| - |CONFIRM|;
      ConfirmMatchesOnce(s, spaces, j);
      assert MatchesAt(ConfirmExpression, t, j);
      assert t[..j] + t[|s|..] == s[..j] + ":" + spaces;
    }
  }

  lemma NoNewline(a: string, b: string, spaces: string)
    requires '\n' !in a && '\n' !in b && IsSpaces(spaces)
    ensures '\n' !in a + b + ":" + spaces
  {
  }

  /** The prompt of a key that is confirmed on each use always gives its path back. */
  lemma ConfirmPromptInverts(path: string, spaces: string)
    requires path != "" && '\n' !in path && IsSpaces(spaces)
    ensures Keyfile(ENTER + path + CONFIRM + ":" + spaces) == path
  {
    hide ExtractPath, DropConfirm, Keyfile;
    var s := ENTER + path + CONFIRM;
    NoNewline(ENTER, path + CONFIRM, spaces);
    assert ENTER + (path + CONFIRM) == s;
    OneLine(s + ":" + spaces);
    assert s[|s| - |CONFIRM|..] == CONFIRM && s[..|s| - |CONFIRM|] == ENTER + path;
    DropConfirmExactly(s, spaces);
    ExtractFromPrompt(path, spaces);
  }

  lemma SuffixOfAppend(a: string, t: string, m: nat)
    requires m <= |t|
    ensures (a + t)[|a + t| - m..] == t[|t| - m..]
  {
    var whole, end := (a + t)[|a + t| - m..], t[|t| - m..];
    assert forall k :: 0 <= k < m ==> whole[k] == end[k];
  }

  lemma SameEnd(front: string, path: string, word: string)
    requires |word| <= |path| + 1
    ensures EndsWith(front + " " + path, word) <==> EndsWith(" " + path, word)
  {
    assert front + " " + path == front + (" " + path);
    SuffixOfAppend(front, " " + path, |word|);
  }

  /** A word that reaches past the space before the path has that space and what is before it inside. */
  lemma TooShort(front: string, path: string, word: string)
    requires |path| + 1 < |word| && front != "" && EndsWith(front + " " + path, word)
    ensures var k := |word| - |path| - 2;
      word[k] == front[|front| - 1] && word[k + 1] == ' '
  {
    var s := front + " " + path;
    var from := |s| - |word|;
    assert word == s[from..];
    assert from + (|word| - |path| - 2) == |front| - 1;
    assert s[|front| - 1] == front[|front| - 1] && s[|front|] == ' ';
  }

  lemma NoRSpaceInConfirm(k: nat)
    requires k < |CONFIRM| - 1 && CONFIRM[k] == 'r'
    ensures CONFIRM[k + 1] != ' '
  {
  }

  const BEFORE_SPACE := "Enter passphrase for"

  /** No "r " inside `CONFIRM`, so it can only reach into `ENTER` by its last space. */
  lemma ConfirmReachesOneSpace(path: string)
    ensures EndsWith(ENTER + path, CONFIRM) <==> EndsWith(" " + path, CONFIRM)
  {
    hide EndsWith;
    assert ENTER == BEFORE_SPACE + " ";
    if |CONFIRM| <= |path| + 1 {
      SameEnd(BEFORE_SPACE, path, CONFIRM);
    } else {
      NotAnEnd(path);
    }
  }

  lemma NotAnEnd(path: string)
    requires |path| + 1 < |CONFIRM|
    ensures !EndsWith(ENTER + path, CONFIRM) && !EndsWith(" " + path, CONFIRM)
  {
    assert ENTER == BEFORE_SPACE + " ";
    if EndsWith(ENTER + path, CONFIRM) {
      TooShort(BEFORE_SPACE, path, CONFIRM);
      NoRSpaceInConfirm(|CONFIRM| - |path| - 2);
    }
  }

  lemma NothingToExtract(front: string, spaces: string)
    requires |front| <= |ENTER| && IsSpaces(spaces)
    ensures ExtractPath(front + ":" + spaces) == front + ":" + spaces
  {
    LastColonBefore(front, spaces);
  }

  /** What is left of the plain prompt once the words are dropped from its end. */
  lemma TruncatedPrompt(path: string, spaces: string)
    requires path != "" && IsSpaces(spaces) && EndsWith(ENTER + path, CONFIRM)
    ensures var s := ENTER + path;
      ExtractPath(s[..|s| - |CONFIRM|] + ":" + spaces) != path
  {
    var s, n := ENTER + path, |CONFIRM|;
    var front := s[..|s| - n];
    hide ExtractPath;
    if |path| > n {
      assert front == ENTER + path[..|path| - n];
      ExtractFromPrompt(path[..|path| - n], spaces);
    } else {
      NothingToExtract(front, spaces);
      if |front + ":" + spaces| == |path| {
        PathHasNoColon(path);
        assert (front + ":" + spaces)[|front|] == ':';
      }
    }
  }

  lemma PathHasNoColon(path: string)
    requires |path| <= |CONFIRM| && EndsWith(ENTER + path, CONFIRM)
    ensures ':' !in path
  {
    NoColonInConfirm();
    var s := ENTER + path;
    assert path == s[|s| - |CONFIRM|..][|CONFIRM| - |path|..];
  }

  /** The plain prompt gives the path back exactly when a space and the path do not end in what the
      first expression drops; the space is the one that ends the words before the path. */
  lemma PlainPromptInverts(path: string, spaces: string)
    requires path != "" && '\n' !in path && IsSpaces(spaces)
    ensures Keyfile(ENTER + path + ":" + spaces) == path <==> !EndsWith(" " + path, CONFIRM)
  {
    hide DropConfirm, ExtractPath, EndsWith, Keyfile;
    NoNewline(ENTER, path, spaces);
    OneLine(ENTER + path + ":" + spaces);
    ConfirmReachesOneSpace(path);
    DropConfirmExactly(ENTER + path, spaces);
    if EndsWith(ENTER + path, CONFIRM) {
      TruncatedPrompt(path, spaces);
    } else {
      ExtractFromPrompt(path, spaces);
    }
  }

  lemma NoColonInConfirm()
    ensures forall k :: 0 <= k < |CONFIRM| ==> CONFIRM[k] != ':'
  {
  }

  /** The one path that does not itself end in the dropped words and is still not recovered. */
  lemma PlainPromptLosesBareWords()
    ensures !EndsWith(CONFIRM[1..], CONFIRM)
    ensures Keyfile(ENTER + CONFIRM[1..] + ":") != CONFIRM[1..]
  {
    assert " " + CONFIRM[1..] == CONFIRM;
    assert ENTER + CONFIRM[1..] + ":" + "" == ENTER + CONFIRM[1..] + ":";
    PlainPromptInverts(CONFIRM[1..], "");
  }

  /** The first substitution changes a line only when the words, a colon and nothing but spaces end it. */
  lemma DropConfirmOnlyThere(t: string)
    ensures DropConfirm(t) == t || exists front, spaces ::
      t == front + " (will confirm each use)" + ":" + spaces
      && forall c :: c in spaces ==> c in [' ', '\t', '\U{b}', '\U{c}', '\r']
  {
    hide ConfirmMatchesAt, EnterMatchesAt;
    var i := Leftmost(ConfirmExpression, t, 0);
    if i < |t| {
      var front, spaces := MatchedWords(t, i);
    }
  }

  lemma MatchedWords(t: string, i: nat) returns (front: string, spaces: string)
    requires ConfirmMatchesAt(t, i)
    ensures t == front + " (will confirm each use)" + ":" + spaces
    ensures forall c :: c in spaces ==> c in [' ', '\t', '\U{b}', '\U{c}', '\r']
  {
    front, spaces := t[..i], t[i + |CONFIRM| + 1..];
    assert t[i..i + |CONFIRM|] == CONFIRM && t[i + |CONFIRM|..i + |CONFIRM| + 1] == ":";
    forall c | c in spaces
      ensures c in [' ', '\t', '\U{b}', '\U{c}', '\r']
    {
      assert IsSpace(c);
    }
  }

  /** What stands before the words of the second substitution stays, and what follows the last colon goes. */
  lemma ExtractKeepsTheFront(front: string, path: string, rest: string)
    requires path != "" && ':' !in rest
    requires forall k :: 0 <= k < |front| ==> !StartsAt(front + ENTER + path + ":" + rest, k, ENTER)
    ensures ExtractPath(front + ENTER + path + ":" + rest) == front + path
  {
    hide StartsAt, LastColon, Leftmost;
    var t := front + ENTER + path + ":" + rest;
    var colon := |front + ENTER + path|;
    assert t == front + ENTER + path + (":" + rest);
    LastColonAt(front + ENTER + path, rest);
    EnterHere(front, path, rest);
    assert t[..|front|] + t[|front + ENTER|..colon] == front + path;
  }

  lemma LastColonAt(s: string, rest: string)
    requires ':' !in rest
    ensures LastColon(s + ":" + rest) == |s|
  {
    LastColonIs(s + ":" + rest, |s|);
  }

  lemma EnterHere(front: string, path: string, rest: string)
    requires path != ""
    requires forall k :: 0 <= k < |front| ==> !StartsAt(front + ENTER + path + ":" + rest, k, ENTER)
    ensures Leftmost(EnterExpression, front + ENTER + path + ":" + rest, 0) == |front|
  {
    var t := front + ENTER + path + ":" + rest;
    assert t[|front|..|front| + |ENTER|] == ENTER;
    assert t[|front + ENTER + path|] == ':';
    hide StartsAt;
    var m := Leftmost(EnterExpression, t, 0);
    assert MatchesAt(EnterExpression, t, |front|) by {
      EnterMatches(front, path, rest);
    }
    assert forall k :: 0 <= k < |front| ==> !MatchesAt(EnterExpression, t, k);
  }

  lemma EnterMatches(front: string, path: string, rest: string)
    requires path != ""
    ensures EnterMatchesAt(front + ENTER + path + ":" + rest, |front|)
  {
    var t := front + ENTER + path + ":" + rest;
    assert t[|front|..|front| + |ENTER|] == ENTER;
    assert t[|front + ENTER + path|] == ':';
  }

  /** Each line is substituted by itself. */
  lemma LinesApart(line: string, more: string)
    requires '\n' !in line
    ensures Keyfile(line + "\n" + more) == Keyfile(line) + "\n" + Keyfile(more)
  {
    hide ExtractPath, DropConfirm;
    var prompt := line + "\n" + more;
    OneLine(line);
    FirstNewlineIs(prompt, |line|);
    assert prompt[..|line|] == line && prompt[|line| + 1..] == more;
  }

  lemma {:induction false} FirstNewlineIs(s: string, i: nat)
    requires i < |s| && s[i] == '\n' && '\n' !in s[..i]
    ensures FirstNewline(s) == i
  {
    if i > 0 {
      assert s[0] == s[..i][0] && s[1..][..i - 1] == s[..i][1..];
      FirstNewlineIs(s[1..], i - 1);
    }
  }

  /** The two prompts of ssh-agent as it writes them. */
  lemma PromptsOfSshAgent(path: string)
    requires path != "" && '\n' !in path
    ensures Keyfile("Enter passphrase for " + path + " (will confirm each use): ") == path
    ensures Keyfile("Enter passphrase for " + path + ": ") == path
       <==> !EndsWith(" " + path, " (will confirm each use)")
  {
    hide Keyfile, EndsWith;
    var front := "Enter passphrase for " + path;
    assert front + " (will confirm each use): " == front + CONFIRM + ":" + " ";
    assert front + ": " == front + ":" + " ";
    ConfirmPromptInverts(path, " ");
    PlainPromptInverts(path, " ");
  }

  lemma SpacesExactly(s: string)
    ensures IsSpaces(s) <==> forall c :: c in s ==> c in [' ', '\t', '\U{b}', '\U{c}', '\r']
  {
    forall i | 0 <= i < |s|
      ensures IsSpace(s[i]) <==> s[i] in [' ', '\t', '\U{b}', '\U{c}', '\r']
    {
    }
    if forall c :: c in s ==> c in [' ', '\t', '\U{b}', '\U{c}', '\r'] {
      assert forall i :: 0 <= i < |s| ==> s[i] in s;
    }
  }
}
