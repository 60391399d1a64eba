/** Which command lines are accepted, and what comes of them, in terms of their words and options. */
module CommandLines {
  import opened Basics
  import opened Console
  import opened Files
  import opened Invocation

  predicate GivesDevice(options: seq<Opt>) { exists opt :: opt in options && opt.DeviceOpt? }

  predicate GivesFile(options: seq<Opt>) { exists opt :: opt in options && opt.FileOpt? }

  predicate GivesPassphrase(options: seq<Opt>) {
    exists opt :: opt in options && (opt.PassphraseOpt? || opt.PassphraseFileOpt?)
  }

  predicate GivesMixin(options: seq<Opt>) { exists opt :: opt in options && opt.MixinOpt? }

  predicate GivesHardness(options: seq<Opt>) { exists opt :: opt in options && opt.HardnessOpt? }

  /** Every file that a `-r` names can be read. */
  ghost predicate FilesReadable(options: seq<Opt>, files: FileSystem) {
    forall opt :: opt in options && opt.PassphraseFileOpt? ==>
      opt.arg in files && 1 <= |files[opt.arg]| <= 10485760
  }

  /** The last `-k`. */
  ghost predicate IsLastHardness(options: seq<Opt>, i: nat) {
    i < |options| && options[i].HardnessOpt? && forall j :: i < j < |options| ==> !options[j].HardnessOpt?
  }

  /** The last `-k`, if there is one, starts with a letter that names a hardness. */
  ghost predicate LastHardnessNamed(options: seq<Opt>) {
    forall i: nat :: IsLastHardness(options, i) ==>
      options[i].arg != [] && options[i].arg[0] as char in "lLmMhH"
  }

  // ---------------------------------------------------------------- fields and options

  lemma SomeFailsExactly(options: seq<Opt>, files: FileSystem)
    ensures FilesReadable(options, files) <==> !exists i :: 0 <= i < |options| && FileFails(files, options[i])
    ensures FilesReadable(options, files) ==> forall opt :: opt in options ==> !FileFails(files, opt)
  {
    hide ReadFile;
    forall i | 0 <= i < |options|
      ensures FileFails(files, options[i]) <==>
        options[i].PassphraseFileOpt?
        && !(options[i].arg in files && 1 <= |files[options[i].arg]| <= 10485760)
    {
    }
  }

  lemma {:induction false} LatestOccurs<T>(options: seq<Opt>, written: Opt -> Option<T>)
    ensures Latest(options, written).Some? <==> exists opt :: opt in options && written(opt).Some?
  {
    if options != [] {
      var last := options[|options| - 1];
      LatestOccurs(options[..|options| - 1], written);
      assert options == options[..|options| - 1] + [last];
    }
  }

  lemma DeviceOccurs(options: seq<Opt>)
    ensures Latest(options, DeviceOf).Some? <==> GivesDevice(options)
  {
    hide Latest;
    LatestOccurs(options, DeviceOf);
  }

  lemma FileOccurs(options: seq<Opt>)
    ensures Latest(options, FileOf).Some? <==> GivesFile(options)
  {
    hide Latest;
    LatestOccurs(options, FileOf);
  }

  lemma MixinOccurs(options: seq<Opt>)
    ensures Latest(options, MixinOf).Some? <==> GivesMixin(options)
  {
    hide Latest;
    LatestOccurs(options, MixinOf);
  }

  lemma PassphraseOccurs(options: seq<Opt>, files: FileSystem)
    requires FilesReadable(options, files)
    ensures Latest(options, PassphraseOf(files)).Some? <==> GivesPassphrase(options)
  {
    hide Latest, StrNDup;
    LatestOccurs(options, PassphraseOf(files));
    forall opt | opt in options
      ensures PassphraseOf(files)(opt).Some? <==> opt.PassphraseOpt? || opt.PassphraseFileOpt?
    {
    }
  }

  lemma HardnessOccurs(options: seq<Opt>)
    ensures Latest(options, HardnessOf).Some? <==> GivesHardness(options)
  {
    hide Latest, Lowercase;
    LatestOccurs(options, HardnessOf);
  }

  lemma HardnessOfLetter(opt: Opt)
    requires opt.HardnessOpt?
    ensures HardnessOf(opt).Some? && HardnessOf(opt).value != Unspecified
    ensures HardnessOf(opt).value != Invalid <==> opt.arg != [] && opt.arg[0] as char in "lLmMhH"
  {
  }

  lemma {:induction false} LastIndex(options: seq<Opt>) returns (i: nat)
    requires GivesHardness(options)
    ensures IsLastHardness(options, i)
  {
    var n := |options| - 1;
    if options[n].HardnessOpt? {
      i := n;
    } else {
      assert options == options[..n] + [options[n]];
      i := LastIndex(options[..n]);
    }
  }

  lemma LastHardness(options: seq<Opt>)
    ensures Latest(options, HardnessOf) != Some(Unspecified)
    ensures Latest(options, HardnessOf) != Some(Invalid) <==> LastHardnessNamed(options)
  {
    hide Latest, HardnessOf, LastHardnessNamed;
    HardnessOccurs(options);
    if Latest(options, HardnessOf).Some? {
      var i := LastIndex(options);
      OthersWriteNothing(options);
      HardnessOfLetter(options[i]);
      LatestIsLast(options, HardnessOf, i);
      OneLast(options, i);
    } else {
      NoneLast(options);
    }
  }

  lemma OthersWriteNothing(options: seq<Opt>)
    ensures forall j :: 0 <= j < |options| && !options[j].HardnessOpt? ==> HardnessOf(options[j]).None?
  {
  }

  lemma OneLast(options: seq<Opt>, i: nat)
    requires IsLastHardness(options, i)
    ensures LastHardnessNamed(options) <==> options[i].arg != [] && options[i].arg[0] as char in "lLmMhH"
  {
    assert forall k: nat :: IsLastHardness(options, k) ==> k == i;
  }

  lemma NoneLast(options: seq<Opt>)
    requires !GivesHardness(options)
    ensures LastHardnessNamed(options)
  {
    forall i: nat
      ensures !IsLastHardness(options, i)
    {
      assert i < |options| ==> options[i] in options;
    }
  }

  // ---------------------------------------------------------------- acceptance

  /** What makes a subcommand other than help refuse its command line. */
  ghost predicate BadFor(word: CStr, options: seq<Opt>) {
    if word == Ascii("enrol") then
      !GivesDevice(options) || !GivesFile(options) || GivesMixin(options) || !LastHardnessNamed(options)
    else if word == Ascii("generate") then
      GivesDevice(options) || !GivesFile(options) || ObfuscateOpt in options || GivesHardness(options)
    else
      GivesDevice(options) || GivesFile(options) || GivesMixin(options) || GivesPassphrase(options)
      || ObfuscateOpt in options || GivesHardness(options)
  }

  predicate IsWord(word: CStr) {
    word in {Ascii("help"), Ascii("version"), Ascii("enrol"), Ascii("generate"), Ascii("enumerate")}
  }

  lemma WordsDiffer()
    ensures Ascii("help")[0] != Ascii("version")[0] && Ascii("help")[0] != Ascii("generate")[0]
    ensures |Ascii("help")| == 4 && |Ascii("version")| == 7 && |Ascii("enrol")| == 5
    ensures |Ascii("generate")| == 8 && |Ascii("enumerate")| == 9
  {
  }

  lemma RefusedIsBad(word: CStr, options: seq<Opt>, files: FileSystem)
    requires IsWord(word) && word != Ascii("help") && HelpOpt !in options && FilesReadable(options, files)
    ensures FirstWord(Some(word)).Some?
    ensures Refused(Declared(FirstWord(Some(word)).value, options, files)) <==> BadFor(word, options)
  {
    hide Latest, GivesDevice, GivesFile, GivesMixin, GivesPassphrase, GivesHardness, LastHardnessNamed, Ascii;
    WordsDiffer();
    DeviceOccurs(options);
    FileOccurs(options);
    MixinOccurs(options);
    PassphraseOccurs(options, files);
    HardnessOccurs(options);
    LastHardness(options);
  }

  ghost predicate Accepts(command: CommandLine, files: FileSystem) {
    && command.first.Some? && IsWord(command.first.value) && FilesReadable(command.options, files)
    && (command.first.value == Ascii("help") || HelpOpt in command.options
        || (BadOpt !in command.options && command.extraWords == 0 && !BadFor(command.first.value, command.options)))
  }

  /** The passphrase is read from standard input. */
  predicate AsksForPassphrase(command: CommandLine) {
    && HelpOpt !in command.options && !GivesPassphrase(command.options)
    && command.first in {Some(Ascii("enrol")), Some(Ascii("generate"))}
  }

  /** A command line is refused with 32 exactly for an unknown or missing first word or, unless help is
      asked for, for a bad option, an extra word, or options that do not go with the subcommand; with 36
      exactly when its first word is known and a `-r` names a file that cannot be read. */
  lemma RefusedExactly(command: CommandLine, files: FileSystem, memory: nat, terminal: Terminal, pending: seq<byte>)
    ensures var o, options := Parse(command, files, memory, terminal, pending), command.options;
      && (o == Exit(36) <==> command.first.Some? && IsWord(command.first.value) && !FilesReadable(options, files))
      && (o == Exit(32) <==>
            || command.first.None? || !IsWord(command.first.value)
            || (FilesReadable(options, files) && command.first.value != Ascii("help") && HelpOpt !in options
                && (BadOpt in options || command.extraWords > 0 || BadFor(command.first.value, options))))
  {
    hide Refused, Declared, FilesReadable, BadFor, Prompt, FileFails, Ascii;
    SomeFailsExactly(command.options, files);
    PromptUndefinedExactly(terminal, pending, LONGEST_VALID_PASSPHRASE);
    if command.first.Some? && IsWord(command.first.value) && FilesReadable(command.options, files)
       && command.first.value != Ascii("help") && HelpOpt !in command.options {
      RefusedIsBad(command.first.value, command.options, files);
    }
    WordsDiffer();
    DeclaredSubcommand(command, files);
  }

  lemma DeclaredSubcommand(command: CommandLine, files: FileSystem)
    ensures forall subcommand :: Declared(subcommand, command.options, files).subcommand
                              == if HelpOpt in command.options then Help else subcommand
  {
  }

  lemma WordOf(word: CStr)
    ensures FirstWord(Some(word))
         == if word == Ascii("help") then Some(Help)
            else if word == Ascii("version") then Some(Version)
            else if word == Ascii("enrol") then Some(Enrol)
            else if word == Ascii("generate") then Some(Generate)
            else if word == Ascii("enumerate") then Some(Enumerate)
            else None
  {
  }

  /** An accepted command line returns, unless it needs a passphrase that standard input does not give. */
  lemma EndsAtThePromptExactly(command: CommandLine, files: FileSystem, memory: nat, terminal: Terminal,
                               pending: seq<byte>)
    ensures var o := Parse(command, files, memory, terminal, pending);
      && (o == Exit(68) <==> Accepts(command, files) && AsksForPassphrase(command)
                             && (terminal.Unknown? || pending == []))
      && (o.Undefined? <==> Accepts(command, files) && AsksForPassphrase(command)
                            && terminal.NotTty? && pending != [] && pending[0] == 0)
      && (o.Exit? ==> o.code in {32, 36, 68})
  {
    hide Refused, FilesReadable, BadFor, Prompt, FileFails, Ascii, Latest, GivesPassphrase;
    RefusedExactly(command, files, memory, terminal, pending);
    SomeFailsExactly(command.options, files);
    PromptUndefinedExactly(terminal, pending, 1024);
    WordsDiffer();
    if Accepts(command, files) {
      WordOf(command.first.value);
      PassphraseOccurs(command.options, files);
    }
  }

  /** The subcommand and the two fields that are filled in afterwards: an enrolment without `-k` takes its
      hardness from the machine's memory, and a passphrase that no option gave is the next line. */
  lemma ReturnedFields(command: CommandLine, files: FileSystem, memory: nat, terminal: Terminal, pending: seq<byte>)
    requires Parse(command, files, memory, terminal, pending).Done?
    ensures var Parsed(f, rest) := Parse(command, files, memory, terminal, pending).value;
      && (HelpOpt in command.options ==> f.subcommand == Help)
      && (HelpOpt !in command.options ==>
            && (f.subcommand == Help <==> command.first == Some(Ascii("help")))
            && (f.subcommand == Version <==> command.first == Some(Ascii("version")))
            && (f.subcommand == Enrol <==> command.first == Some(Ascii("enrol")))
            && (f.subcommand == Generate <==> command.first == Some(Ascii("generate")))
            && (f.subcommand == Enumerate <==> command.first == Some(Ascii("enumerate"))))
      && (f.obfuscateDeviceInfo <==> ObfuscateOpt in command.options)
      && (!GivesHardness(command.options) ==>
            f.kdfHardness == if f.subcommand != Enrol then Unspecified
                             else if memory > 2147483648 then High
                             else if memory > 536870912 then Medium else Low)
      && (if AsksForPassphrase(command)
          then Prompt(terminal, pending, 1024) == Done(Prompted(f.passphrase.value, rest))
          else rest == pending && (f.passphrase.Some? <==> GivesPassphrase(command.options)))
  {
    hide Refused, FilesReadable, Prompt, FileFails, Ascii, Latest, GivesPassphrase, GivesHardness;
    SomeFailsExactly(command.options, files);
    PassphraseOccurs(command.options, files);
    HardnessOccurs(command.options);
    WordsDiffer();
    WordOf(command.first.value);
  }

  /** Every other field is what the last option that writes it says, and is not set when there is none. */
  lemma ReturnedOptions(command: CommandLine, files: FileSystem, memory: nat, terminal: Terminal, pending: seq<byte>,
                        i: nat)
    requires Parse(command, files, memory, terminal, pending).Done? && i < |command.options|
    requires forall j :: i < j < |command.options| ==> !SameField(command.options[i], command.options[j])
    ensures var f := Parse(command, files, memory, terminal, pending).value.fields;
      match command.options[i]
      case DeviceOpt(arg) => f.device == Some(arg)
      case FileOpt(arg) => f.file == Some(arg)
      case PassphraseOpt(arg) => f.passphrase == Some(StrNDup(arg, 1024))
      case PassphraseFileOpt(path) => f.passphrase == Some(StrNDup(files[path], 1024))
      case PinOpt(arg) => f.authenticatorPin == Some(StrNDup(arg, 255))
      case MixinOpt(arg) => f.mixin == Some(arg)
      case HardnessOpt(arg) =>
        f.kdfHardness == if arg == [] then Invalid
                         else if arg[0] as char in "lL" then Low
                         else if arg[0] as char in "mM" then Medium
                         else if arg[0] as char in "hH" then High
                         else Invalid
      case _ => true
  {
    hide Refused, Prompt, FileFails, FirstWord, Declared, StrNDup;
    SomeFailsExactly(command.options, files);
    LastOptionWins(FirstWord(command.first).value, command.options, files, i);
  }

  lemma UngivenFields(command: CommandLine, files: FileSystem, memory: nat, terminal: Terminal, pending: seq<byte>)
    requires Parse(command, files, memory, terminal, pending).Done?
    ensures var f := Parse(command, files, memory, terminal, pending).value.fields;
      && (f.device.Some? <==> GivesDevice(command.options))
      && (f.file.Some? <==> GivesFile(command.options))
      && (f.mixin.Some? <==> GivesMixin(command.options))
      && (f.authenticatorPin.Some? <==> exists opt :: opt in command.options && opt.PinOpt?)
  {
    hide Refused, Prompt, FileFails, FirstWord, GivesDevice, GivesFile, GivesMixin, Latest;
    DeviceOccurs(command.options);
    FileOccurs(command.options);
    MixinOccurs(command.options);
    PinExactlyWhenGiven(command, files, memory, terminal, pending);
  }
}
