/** The command line: an option loop that overwrites fields, and what it promises its callers. */
module Invocation {
  import opened Basics
  import opened Console
  import opened Files

  datatype Subcommand = Help | Version | Enrol | Generate | Enumerate

  datatype Hardness = Invalid | Unspecified | Low | Medium | High

  /** One result of `getopt_long`. */
  datatype Opt =
    | DeviceOpt(arg: CStr)
    | FileOpt(arg: CStr)
    | PassphraseOpt(arg: CStr)
    | PassphraseFileOpt(arg: CStr)
    | PinOpt(arg: CStr)
    | MixinOpt(arg: CStr)
    | HardnessOpt(arg: CStr)
    | ObfuscateOpt
    | HelpOpt
    | BadOpt

  /** `argv`: its first word, what `getopt_long` returns, and the words left after the subcommand. */
  datatype CommandLine = CommandLine(first: Option<CStr>, options: seq<Opt>, extraWords: nat)

  const LONGEST_VALID_PASSPHRASE: nat := 1024
  const LONGEST_VALID_PIN: nat := 255

  const MEMLIMIT_MODERATE: nat := 268435456
  const MEMLIMIT_SENSITIVE: nat := 1073741824

  /** The fields of `invocation_state_t`. */
  datatype Fields = Fields(
    subcommand: Subcommand,
    device: Option<CStr>,
    file: Option<CStr>,
    passphrase: Option<CStr>,
    authenticatorPin: Option<CStr>,
    obfuscateDeviceInfo: bool,
    kdfHardness: Hardness,
    mixin: Option<CStr>)

  class InvocationState {
    var subcommand: Subcommand
    var device: Option<CStr>
    var file: Option<CStr>
    var passphrase: Option<CStr>
    var authenticatorPin: Option<CStr>
    var obfuscateDeviceInfo: bool
    var kdfHardness: Hardness
    var mixin: Option<CStr>

    constructor (subcommand: Subcommand)
      ensures Value() == Fields(subcommand, None, None, None, None, false, Unspecified, None)
    {
      this.subcommand := subcommand;
      device, file, passphrase, authenticatorPin, mixin := None, None, None, None, None;
      obfuscateDeviceInfo, kdfHardness := false, Unspecified;
    }

    function Value(): Fields
      reads this
    {
      Fields(subcommand, device, file, passphrase, authenticatorPin, obfuscateDeviceInfo, kdfHardness, mixin)
    }
  }

  // ---------------------------------------------------------------- what each option writes

  function DeviceOf(opt: Opt): Option<CStr> { if opt.DeviceOpt? then Some(opt.arg) else None }

  function FileOf(opt: Opt): Option<CStr> { if opt.FileOpt? then Some(opt.arg) else None }

  function PinOf(opt: Opt): Option<CStr> {
    if opt.PinOpt? then Some(StrNDup(opt.arg, LONGEST_VALID_PIN)) else None
  }

  function MixinOf(opt: Opt): Option<CStr> { if opt.MixinOpt? then Some(opt.arg) else None }

  /** Setting bit 5, the way the `LOWERCASE` macro does. */
  function Lowercase(c: byte): (l: byte)
    ensures l as int == c as int || l as int == c as int + 32
  {
    if (c / 32) % 2 == 1 then c else c + 32
  }

  function HardnessOf(opt: Opt): Option<Hardness> {
    if !opt.HardnessOpt? then None
    else Some(if opt.arg == [] then Invalid
              else match Lowercase(opt.arg[0]) as char
                case 'l' => Low
                case 'm' => Medium
                case 'h' => High
                case _ => Invalid)
  }

  /** `-p` and `-r` write the same field; a file that cannot be read ends the process before it does. */
  function PassphraseOf(files: FileSystem): Opt -> Option<CStr> {
    (opt: Opt) =>
      if opt.PassphraseOpt? then Some(StrNDup(opt.arg, LONGEST_VALID_PASSPHRASE))
      else if opt.PassphraseFileOpt? && ReadFile(files, opt.arg).Done?
      then Some(StrNDup(files[opt.arg], LONGEST_VALID_PASSPHRASE))
      else None
  }

  predicate FileFails(files: FileSystem, opt: Opt) {
    opt.PassphraseFileOpt? && !ReadFile(files, opt.arg).Done?
  }

  /** The value of the last option that writes a field. */
  function Latest<T>(options: seq<Opt>, written: Opt -> Option<T>): Option<T> {
    if options == [] then None
    else
      var last := written(options[|options| - 1]);
      if last.Some? then last else Latest(options[..|options| - 1], written)
  }

  lemma {:induction false} LatestIsLast<T>(options: seq<Opt>, written: Opt -> Option<T>, i: nat)
    requires i < |options| && written(options[i]).Some?
    requires forall j :: i < j < |options| ==> written(options[j]).None?
    ensures Latest(options, written) == written(options[i])
  {
    if i < |options| - 1 {
      LatestIsLast(options[..|options| - 1], written, i);
    }
  }

  lemma {:induction false} LatestOfNone<T>(options: seq<Opt>, written: Opt -> Option<T>)
    requires forall i :: 0 <= i < |options| ==> written(options[i]).None?
    ensures Latest(options, written).None?
  {
    if options != [] {
      LatestOfNone(options[..|options| - 1], written);
    }
  }

  // ---------------------------------------------------------------- the declarative form

  function Declared(subcommand: Subcommand, options: seq<Opt>, files: FileSystem): Fields {
    Fields(
      if HelpOpt in options then Help else subcommand,
      Latest(options, DeviceOf),
      Latest(options, FileOf),
      Latest(options, PassphraseOf(files)),
      Latest(options, PinOf),
      ObfuscateOpt in options,
      match Latest(options, HardnessOf) case None => Unspecified case Some(h) => h,
      Latest(options, MixinOf))
  }

  function FirstWord(word: Option<CStr>): Option<Subcommand> {
    if word.None? then None
    else if word.value == Ascii("help") then Some(Help)
    else if word.value == Ascii("version") then Some(Version)
    else if word.value == Ascii("enrol") then Some(Enrol)
    else if word.value == Ascii("generate") then Some(Generate)
    else if word.value == Ascii("enumerate") then Some(Enumerate)
    else None
  }

  /** The combinations of fields a subcommand refuses.  A PIN is refused by none. */
  predicate Refused(f: Fields) {
    match f.subcommand
    case Enrol => f.device.None? || f.file.None? || f.mixin.Some? || f.kdfHardness == Invalid
    case Generate => f.device.Some? || f.file.None? || f.obfuscateDeviceInfo || f.kdfHardness != Unspecified
    case _ =>
      || f.device.Some? || f.file.Some? || f.mixin.Some? || f.passphrase.Some?
      || f.obfuscateDeviceInfo || f.kdfHardness != Unspecified
  }

  function HardnessForMemory(available: nat): Hardness {
    if available > MEMLIMIT_SENSITIVE * 2 then High
    else if available > MEMLIMIT_MODERATE * 2 then Medium
    else Low
  }

  predicate TakesPassphrase(s: Subcommand) { s == Enrol || s == Generate }

  datatype Parsed = Parsed(fields: Fields, rest: seq<byte>)

  /** The whole of `parse_arguments_and_get_passphrase`, option order reduced to `Latest`. */
  function Parse(command: CommandLine, files: FileSystem, memory: nat, terminal: Terminal, pending: seq<byte>)
    : Outcome<Parsed>
  {
    var first := FirstWord(command.first);
    if first.None? then Exit(EXIT_BAD_INVOCATION)
    else if exists i :: 0 <= i < |command.options| && FileFails(files, command.options[i])
    then Exit(EXIT_DESERIALIZATION_ERROR)
    else
      var f := Declared(first.value, command.options, files);
      if f.subcommand != Help && (BadOpt in command.options || command.extraWords > 0 || Refused(f))
      then Exit(EXIT_BAD_INVOCATION)
      else
        var g := if f.subcommand == Enrol && f.kdfHardness == Unspecified
                 then f.(kdfHardness := HardnessForMemory(memory)) else f;
        if TakesPassphrase(g.subcommand) && g.passphrase.None? then
          match Prompt(terminal, pending, LONGEST_VALID_PASSPHRASE)
          case Exit(code) => Exit(code)
          case Undefined => Undefined
          case Done(Prompted(secret, rest)) => Done(Parsed(g.(passphrase := Some(secret)), rest))
        else Done(Parsed(g, pending))
  }

  // ---------------------------------------------------------------- the loop

  /** The fields after one turn of the loop. */
  function Overwritten(f: Fields, opt: Opt, files: FileSystem): Fields {
    match opt
    case DeviceOpt(arg) => f.(device := Some(arg))
    case FileOpt(arg) => f.(file := Some(arg))
    case PassphraseOpt(_) => f.(passphrase := PassphraseOf(files)(opt))
    case PassphraseFileOpt(_) =>
      if FileFails(files, opt) then f else f.(passphrase := PassphraseOf(files)(opt))
    case PinOpt(_) => f.(authenticatorPin := PinOf(opt))
    case MixinOpt(arg) => f.(mixin := Some(arg))
    case HardnessOpt(_) => f.(kdfHardness := HardnessOf(opt).value)
    case ObfuscateOpt => f.(obfuscateDeviceInfo := true)
    case HelpOpt => f.(subcommand := Help)
    case BadOpt => f
  }

  lemma LatestStep<T>(options: seq<Opt>, i: nat, written: Opt -> Option<T>)
    requires i < |options|
    ensures Latest(options[..i + 1], written)
         == if written(options[i]).Some? then written(options[i]) else Latest(options[..i], written)
  {
    assert options[..i + 1][..i] == options[..i];
  }

  lemma NoOptions(subcommand: Subcommand, files: FileSystem)
    ensures Declared(subcommand, [], files)
         == Fields(subcommand, None, None, None, None, false, Unspecified, None)
  {
  }

  lemma DeclaredStep(subcommand: Subcommand, options: seq<Opt>, files: FileSystem, i: nat)
    requires i < |options|
    ensures Declared(subcommand, options[..i + 1], files)
         == Overwritten(Declared(subcommand, options[..i], files), options[i], files)
  {
    hide Latest, StrNDup, ReadFile, Lowercase;
    assert options[..i + 1] == options[..i] + [options[i]];
    LatestStep(options, i, DeviceOf);
    LatestStep(options, i, FileOf);
    LatestStep(options, i, PassphraseOf(files));
    LatestStep(options, i, PinOf);
    LatestStep(options, i, HardnessOf);
    LatestStep(options, i, MixinOf);
  }

  /** One turn of the loop. */
  method TakeOption(result: InvocationState, opt: Opt, files: FileSystem) returns (o: Outcome<bool>)
    modifies result
    ensures FileFails(files, opt) <==> o == Exit(EXIT_DESERIALIZATION_ERROR)
    ensures !FileFails(files, opt) ==> o == Done(opt.BadOpt?)
    ensures !FileFails(files, opt) ==> result.Value() == Overwritten(old(result.Value()), opt, files)
  {
    match opt {
      case DeviceOpt(arg) => result.device := Some(arg);
      case FileOpt(arg) => result.file := Some(arg);
      case PassphraseOpt(arg) => result.passphrase := Some(StrNDup(arg, LONGEST_VALID_PASSPHRASE));
      case PassphraseFileOpt(path) =>
        var f := ReadFile(files, path);
        if !f.Done? {
          return Exit(EXIT_DESERIALIZATION_ERROR);
        }
        var length := if |f.value| > LONGEST_VALID_PASSPHRASE then LONGEST_VALID_PASSPHRASE else |f.value|;
        result.passphrase := Some(StrNDup(f.value, length));
      case PinOpt(arg) => result.authenticatorPin := Some(StrNDup(arg, LONGEST_VALID_PIN));
      case MixinOpt(arg) => result.mixin := Some(arg);
      case HardnessOpt(_) => result.kdfHardness := HardnessOf(opt).value;
      case ObfuscateOpt => result.obfuscateDeviceInfo := true;
      case HelpOpt => result.subcommand := Help;
      case BadOpt =>
    }
    return Done(opt.BadOpt?);
  }

  method ParseArguments(command: CommandLine, files: FileSystem, memory: nat, stdin: Stdin)
    returns (o: Outcome<InvocationState>)
    modifies stdin
    ensures match Parse(command, files, memory, stdin.terminal, old(stdin.pending))
      case Done(Parsed(fields, rest)) =>
        o.Done? && fresh(o.value) && o.value.Value() == fields && stdin.pending == rest
      case Exit(code) => o == Exit(code)
      case Undefined => o.Undefined?
  {
    hide Overwritten, Declared, FileFails, Prompt, Refused, StrNDup;
    var first := FirstWord(command.first);
    if first.None? {
      return Exit(EXIT_BAD_INVOCATION);
    }
    var result := new InvocationState(first.value);
    NoOptions(first.value, files);
    assert command.options[..0] == [];
    var options, invalid := command.options, false;
    for i := 0 to |options|
      invariant fresh(result) && stdin.pending == old(stdin.pending)
      invariant forall j :: 0 <= j < i ==> !FileFails(files, options[j])
      invariant result.Value() == Declared(first.value, options[..i], files)
      invariant invalid == (BadOpt in options[..i])
    {
      DeclaredStep(first.value, options, files, i);
      assert options[..i + 1] == options[..i] + [options[i]];
      var taken := TakeOption(result, options[i], files);
      if taken.Exit? {
        return Exit(taken.code);
      }
      invalid := invalid || taken.value;
    }
    assert options[..|options|] == options;
    if command.extraWords > 0 {
      invalid := true;
    }
    invalid := invalid || Refused(result.Value());
    if result.subcommand != Help && invalid {
      return Exit(EXIT_BAD_INVOCATION);
    }
    if result.subcommand == Enrol && result.kdfHardness == Unspecified {
      result.kdfHardness := HardnessForMemory(memory);
    }
    if (result.subcommand == Enrol || result.subcommand == Generate) && result.passphrase.None? {
      var buffer := new byte[LONGEST_VALID_PASSPHRASE + 1];
      var prompted := PromptForSecret(stdin, LONGEST_VALID_PASSPHRASE, buffer);
      match prompted {
        case Exit(code) => return Exit(code);
        case Undefined => return Undefined;
        case Done(_) =>
      }
      result.passphrase := Some(CString(buffer[..]));
    }
    return Done(result);
  }

  // ---------------------------------------------------------------- authenticator PINs

  /** Where enrolment and generation take a device's PIN from: the `-n` option, or else a line of
      standard input.  A PIN of 255 bytes would fill its buffer without a NUL. */
  function PinFrom(option: Option<CStr>, terminal: Terminal, pending: seq<byte>): Outcome<Prompted> {
    match option
    case None => Prompt(terminal, pending, LONGEST_VALID_PIN)
    case Some(pin) => if |pin| >= LONGEST_VALID_PIN then Undefined else Done(Prompted(pin, pending))
  }

  method ObtainPin(option: Option<CStr>, stdin: Stdin) returns (o: Outcome<CStr>)
    modifies stdin
    ensures match PinFrom(option, stdin.terminal, old(stdin.pending))
      case Done(Prompted(pin, rest)) => o == Done(pin) && stdin.pending == rest
      case Exit(code) => o == Exit(code)
      case Undefined => o.Undefined?
  {
    if option.None? {
      var buffer := new byte[LONGEST_VALID_PIN + 1];
      var prompted := PromptForSecret(stdin, LONGEST_VALID_PIN, buffer);
      match prompted {
        case Exit(code) => return Exit(code);
        case Undefined => return Undefined;
        case Done(_) => return Done(CString(buffer[..]));
      }
    }
    if |option.value| >= LONGEST_VALID_PIN {
      return Undefined;
    }
    return Done(option.value);
  }

  // ---------------------------------------------------------------- theorems

  /** The options that write one field; `-p` and `-r` share theirs. */
  predicate SameField(a: Opt, b: Opt) {
    match a
    case DeviceOpt(_) => b.DeviceOpt?
    case FileOpt(_) => b.FileOpt?
    case PassphraseOpt(_) => b.PassphraseOpt? || b.PassphraseFileOpt?
    case PassphraseFileOpt(_) => b.PassphraseOpt? || b.PassphraseFileOpt?
    case PinOpt(_) => b.PinOpt?
    case MixinOpt(_) => b.MixinOpt?
    case HardnessOpt(_) => b.HardnessOpt?
    case _ => false
  }

  /** The last option that writes a field decides it, whatever stands before it or elsewhere. */
  lemma LastOptionWins(subcommand: Subcommand, options: seq<Opt>, files: FileSystem, i: nat)
    requires i < |options| && !FileFails(files, options[i])
    requires forall j :: i < j < |options| ==> !SameField(options[i], options[j])
    ensures var f := Declared(subcommand, options, files);
      match options[i]
      case DeviceOpt(arg) => f.device == Some(arg)
      case FileOpt(arg) => f.file == Some(arg)
      case PassphraseOpt(arg) => f.passphrase == Some(StrNDup(arg, 1024))
      case PassphraseFileOpt(path) => f.passphrase == Some(StrNDup(files[path], 1024))
      case PinOpt(arg) => f.authenticatorPin == Some(StrNDup(arg, 255))
      case MixinOpt(arg) => f.mixin == Some(arg)
      case HardnessOpt(arg) =>
        f.kdfHardness == if arg == [] then Invalid
                         else if arg[0] as char in "lL" then Low
                         else if arg[0] as char in "mM" then Medium
                         else if arg[0] as char in "hH" then High
                         else Invalid
      case ObfuscateOpt => f.obfuscateDeviceInfo
      case HelpOpt => f.subcommand == Help
      case BadOpt => true
  {
    hide Latest, StrNDup;
    match options[i] {
      case DeviceOpt(_) => LatestIsLast(options, DeviceOf, i);
      case FileOpt(_) => LatestIsLast(options, FileOf, i);
      case PassphraseOpt(_) => LatestIsLast(options, PassphraseOf(files), i);
      case PassphraseFileOpt(_) => LatestIsLast(options, PassphraseOf(files), i);
      case PinOpt(_) => LatestIsLast(options, PinOf, i);
      case MixinOpt(_) => LatestIsLast(options, MixinOf, i);
      case HardnessOpt(_) => LatestIsLast(options, HardnessOf, i);
      case _ =>
    }
  }

  /** A field that no option writes keeps what it started with. */
  lemma UnwrittenField(subcommand: Subcommand, options: seq<Opt>, files: FileSystem, like: Opt)
    requires forall j :: 0 <= j < |options| ==> !SameField(like, options[j])
    ensures var f := Declared(subcommand, options, files);
      match like
      case DeviceOpt(_) => f.device.None?
      case FileOpt(_) => f.file.None?
      case PassphraseOpt(_) => f.passphrase.None?
      case PassphraseFileOpt(_) => f.passphrase.None?
      case PinOpt(_) => f.authenticatorPin.None?
      case MixinOpt(_) => f.mixin.None?
      case HardnessOpt(_) => f.kdfHardness == Unspecified
      case _ => true
  {
    hide Latest, StrNDup;
    match like {
      case DeviceOpt(_) => LatestOfNone(options, DeviceOf);
      case FileOpt(_) => LatestOfNone(options, FileOf);
      case PassphraseOpt(_) => LatestOfNone(options, PassphraseOf(files));
      case PassphraseFileOpt(_) => LatestOfNone(options, PassphraseOf(files));
      case PinOpt(_) => LatestOfNone(options, PinOf);
      case MixinOpt(_) => LatestOfNone(options, MixinOf);
      case HardnessOpt(_) => LatestOfNone(options, HardnessOf);
      case _ =>
    }
  }

  /** What a returned invocation promises the subcommand that runs next; in particular the key
      specification of an enrolment never sees a hardness it calls a bug. */
  lemma ReturnedInvocation(command: CommandLine, files: FileSystem, memory: nat, terminal: Terminal, pending: seq<byte>)
    requires Parse(command, files, memory, terminal, pending).Done?
    ensures var f := Parse(command, files, memory, terminal, pending).value.fields;
      match f.subcommand
      case Enrol => f.device.Some? && f.file.Some? && f.passphrase.Some? && f.mixin.None?
                    && f.kdfHardness in {Low, Medium, High}
      case Generate => f.file.Some? && f.passphrase.Some? && f.device.None? && !f.obfuscateDeviceInfo
                    && f.kdfHardness == Unspecified
      case Help => true
      case _ => f.device.None? && f.file.None? && f.passphrase.None? && f.mixin.None?
                    && !f.obfuscateDeviceInfo && f.kdfHardness == Unspecified
  {
    var f := Declared(FirstWord(command.first).value, command.options, files);
    if f.subcommand == Enrol && f.kdfHardness == Unspecified {
      assert HardnessForMemory(memory) in {Low, Medium, High};
    }
  }

  /** A bad option, like an extra word, is never forgiven by what surrounds it, except that help is
      always given; and nothing but an unreadable passphrase file takes help away. */
  lemma BadOptionAndHelpAbsorb(command: CommandLine, files: FileSystem, memory: nat, terminal: Terminal,
                               pending: seq<byte>)
    requires FirstWord(command.first).Some?
    requires forall opt :: opt in command.options ==> !FileFails(files, opt)
    ensures var helped := HelpOpt in command.options || FirstWord(command.first) == Some(Help);
      && (helped ==>
           Parse(command, files, memory, terminal, pending)
             == Done(Parsed(Declared(Help, command.options, files), pending)))
      && (!helped && (BadOpt in command.options || command.extraWords > 0) ==>
           Parse(command, files, memory, terminal, pending) == Exit(EXIT_BAD_INVOCATION))
  {
  }

  // ---------------------------------------------------------------- PINs where none is used

  function WithoutPins(options: seq<Opt>): (r: seq<Opt>)
    ensures forall opt :: opt in r <==> opt in options && !opt.PinOpt?
  {
    if options == [] then []
    else
      var last := options[|options| - 1];
      assert options == options[..|options| - 1] + [last];
      WithoutPins(options[..|options| - 1]) + if last.PinOpt? then [] else [last]
  }

  lemma {:induction false} LatestWithoutPins<T>(options: seq<Opt>, written: Opt -> Option<T>)
    requires forall opt: Opt :: opt.PinOpt? ==> written(opt).None?
    ensures Latest(WithoutPins(options), written) == Latest(options, written)
  {
    if options != [] {
      var last := options[|options| - 1];
      LatestWithoutPins(options[..|options| - 1], written);
      LatestOfMore(WithoutPins(options[..|options| - 1]), last, written);
    }
  }

  lemma LatestOfMore<T>(options: seq<Opt>, opt: Opt, written: Opt -> Option<T>)
    ensures Latest(options + [opt], written)
         == if written(opt).Some? then written(opt) else Latest(options, written)
    ensures options + [] == options
  {
    assert (options + [opt])[..|options|] == options;
  }

  lemma DeclaredWithoutPins(subcommand: Subcommand, options: seq<Opt>, files: FileSystem)
    ensures Declared(subcommand, WithoutPins(options), files)
         == Declared(subcommand, options, files).(authenticatorPin := None)
  {
    hide Latest, WithoutPins, StrNDup, ReadFile, Lowercase;
    LatestWithoutPins(options, DeviceOf);
    LatestWithoutPins(options, FileOf);
    LatestWithoutPins(options, PassphraseOf(files));
    LatestWithoutPins(options, HardnessOf);
    LatestWithoutPins(options, MixinOf);
    LatestOfNone(WithoutPins(options), PinOf);
  }

  ghost predicate SomeFails(options: seq<Opt>, files: FileSystem) {
    exists i :: 0 <= i < |options| && FileFails(files, options[i])
  }

  lemma MoreFails(fewer: seq<Opt>, options: seq<Opt>, files: FileSystem)
    requires forall opt :: opt in fewer ==> opt in options
    ensures SomeFails(fewer, files) ==> SomeFails(options, files)
  {
    hide FileFails;
    if SomeFails(fewer, files) {
      var i :| 0 <= i < |fewer| && FileFails(files, fewer[i]);
      assert fewer[i] in options;
    }
  }

  lemma FailuresWithoutPins(options: seq<Opt>, files: FileSystem)
    ensures SomeFails(WithoutPins(options), files) <==> SomeFails(options, files)
  {
    hide WithoutPins, ReadFile;
    MoreFails(WithoutPins(options), options, files);
    if SomeFails(options, files) {
      var i :| 0 <= i < |options| && FileFails(files, options[i]);
      assert options[i] in WithoutPins(options);
    }
  }

  /** Taking every `-n` off a command line changes nothing but the PIN: not whether it is accepted,
      nor any other field, nor what is read. */
  lemma PinsAreNeverRefused(command: CommandLine, files: FileSystem, memory: nat, terminal: Terminal,
                            pending: seq<byte>)
    ensures Parse(command.(options := WithoutPins(command.options)), files, memory, terminal, pending)
         == match Parse(command, files, memory, terminal, pending)
            case Done(Parsed(f, rest)) => Done(Parsed(f.(authenticatorPin := None), rest))
            case Exit(code) => Exit(code)
            case Undefined => Undefined
  {
    hide Declared, FileFails, Prompt, WithoutPins, FirstWord;
    if FirstWord(command.first).Some? {
      DeclaredWithoutPins(FirstWord(command.first).value, command.options, files);
      FailuresWithoutPins(command.options, files);
    }
  }

  /** An accepted command line carries a PIN exactly when it has a `-n`, whatever its subcommand: that
      the other subcommands prohibit one holds of a command line they accept exactly when it has none. */
  lemma PinExactlyWhenGiven(command: CommandLine, files: FileSystem, memory: nat, terminal: Terminal,
                            pending: seq<byte>)
    requires Parse(command, files, memory, terminal, pending).Done?
    ensures Parse(command, files, memory, terminal, pending).value.fields.authenticatorPin.Some?
       <==> exists opt :: opt in command.options && opt.PinOpt?
  {
    hide Prompt, FirstWord, Refused, FileFails;
    PinWritten(command.options);
    var f := Declared(FirstWord(command.first).value, command.options, files);
    assert f.authenticatorPin == Latest(command.options, PinOf);
    hide Declared;
  }

  lemma {:induction false} PinWritten(options: seq<Opt>)
    ensures Latest(options, PinOf).Some? <==> exists opt :: opt in options && opt.PinOpt?
  {
    if options != [] {
      var last := options[|options| - 1];
      assert options == options[..|options| - 1] + [last];
      PinWritten(options[..|options| - 1]);
    }
  }

  /** `enumerate -n PIN` is accepted. */
  lemma EnumerateTakesPin(pin: CStr, files: FileSystem, memory: nat, terminal: Terminal, pending: seq<byte>)
    ensures Parse(CommandLine(Some(Ascii("enumerate")), [PinOpt(pin)], 0), files, memory, terminal, pending)
         == Done(Parsed(Fields(Enumerate, None, None, None, Some(StrNDup(pin, 255)), false, Unspecified, None),
                        pending))
  {
    var options := [PinOpt(pin)];
    assert options[..0] == [];
    assert FirstWord(Some(Ascii("enumerate"))) == Some(Enumerate);
    LatestIsLast(options, PinOf, 0);
    LatestOfNone(options, DeviceOf);
    LatestOfNone(options, FileOf);
    LatestOfNone(options, PassphraseOf(files));
    LatestOfNone(options, HardnessOf);
    LatestOfNone(options, MixinOf);
    hide Latest;
  }

  // ---------------------------------------------------------------- strings of repeated options

  /** The options whose argument is copied to the heap. */
  predicate Allocates(opt: Opt) {
    opt.DeviceOpt? || opt.FileOpt? || opt.PassphraseOpt? || opt.PassphraseFileOpt? || opt.PinOpt? || opt.MixinOpt?
  }

  /** Whether the field an option writes is not NULL. */
  predicate HasField(f: Fields, opt: Opt) {
    match opt
    case DeviceOpt(_) => f.device.Some?
    case FileOpt(_) => f.file.Some?
    case PassphraseOpt(_) => f.passphrase.Some?
    case PassphraseFileOpt(_) => f.passphrase.Some?
    case PinOpt(_) => f.authenticatorPin.Some?
    case MixinOpt(_) => f.mixin.Some?
    case _ => false
  }

  function One(b: bool): nat { if b then 1 else 0 }

  /** The strings the fields still point to. */
  function Held(f: Fields): nat {
    One(f.device.Some?) + One(f.file.Some?) + One(f.passphrase.Some?) + One(f.authenticatorPin.Some?)
    + One(f.mixin.Some?)
  }

  /** The strings that were copied. */
  function Allocated(options: seq<Opt>): nat {
    if options == [] then 0
    else Allocated(options[..|options| - 1]) + One(Allocates(options[|options| - 1]))
  }

  ghost predicate Unwritten(options: seq<Opt>, like: Opt) {
    forall j :: 0 <= j < |options| ==> !SameField(like, options[j])
  }

  ghost predicate NoneRepeated(options: seq<Opt>) {
    forall k :: 0 <= k < |options| && Allocates(options[k]) ==> Unwritten(options[..k], options[k])
  }

  lemma {:induction false} LatestNoneExactly<T>(options: seq<Opt>, written: Opt -> Option<T>)
    ensures Latest(options, written).None? <==> forall i :: 0 <= i < |options| ==> written(options[i]).None?
  {
    if options != [] {
      LatestNoneExactly(options[..|options| - 1], written);
    }
  }

  lemma FieldIsUnwritten(subcommand: Subcommand, options: seq<Opt>, files: FileSystem, like: Opt)
    requires Allocates(like) && forall opt :: opt in options ==> !FileFails(files, opt)
    ensures HasField(Declared(subcommand, options, files), like) <==> !Unwritten(options, like)
  {
    hide Latest, StrNDup, ReadFile;
    match like {
      case DeviceOpt(_) => LatestNoneExactly(options, DeviceOf);
      case FileOpt(_) => LatestNoneExactly(options, FileOf);
      case PassphraseOpt(_) => PassphraseUnwritten(options, files, like);
      case PassphraseFileOpt(_) => PassphraseUnwritten(options, files, like);
      case PinOpt(_) => LatestNoneExactly(options, PinOf);
      case MixinOpt(_) => LatestNoneExactly(options, MixinOf);
    }
  }

  lemma PassphraseUnwritten(options: seq<Opt>, files: FileSystem, like: Opt)
    requires like.PassphraseOpt? || like.PassphraseFileOpt?
    requires forall opt :: opt in options ==> !FileFails(files, opt)
    ensures Latest(options, PassphraseOf(files)).Some? <==> !Unwritten(options, like)
  {
    hide Latest, StrNDup, ReadFile;
    LatestNoneExactly(options, PassphraseOf(files));
    assert forall j :: 0 <= j < |options| ==> !FileFails(files, options[j]);
  }

  lemma HeldStep(f: Fields, opt: Opt, files: FileSystem)
    requires !FileFails(files, opt)
    ensures Held(Overwritten(f, opt, files)) == Held(f) + One(Allocates(opt) && !HasField(f, opt))
  {
    hide StrNDup, ReadFile, Lowercase;
  }

  lemma NoneRepeatedStep(options: seq<Opt>, i: nat)
    requires i < |options|
    ensures NoneRepeated(options[..i + 1])
       <==> NoneRepeated(options[..i]) && (Allocates(options[i]) ==> Unwritten(options[..i], options[i]))
  {
    hide Allocates, Unwritten;
    var more, fewer := options[..i + 1], options[..i];
    assert forall k :: 0 <= k < i ==> more[k] == fewer[k] && more[..k] == fewer[..k];
    assert more[i] == options[i] && more[..i] == fewer;
  }

  lemma {:induction false} StringsBefore(subcommand: Subcommand, options: seq<Opt>, files: FileSystem, i: nat)
    requires i <= |options| && forall opt :: opt in options ==> !FileFails(files, opt)
    ensures Held(Declared(subcommand, options[..i], files)) <= Allocated(options[..i])
    ensures Held(Declared(subcommand, options[..i], files)) == Allocated(options[..i])
       <==> NoneRepeated(options[..i])
  {
    hide Declared, Overwritten, Held, FileFails, Unwritten, Allocates, HasField, NoneRepeated;
    if i == 0 {
      NoStrings(subcommand, files);
      assert options[..0] == [];
    } else {
      var before := options[..i - 1];
      StringsBefore(subcommand, options, files, i - 1);
      DeclaredStep(subcommand, options, files, i - 1);
      HeldStep(Declared(subcommand, before, files), options[i - 1], files);
      NoneRepeatedStep(options, i - 1);
      assert options[..i][..i - 1] == before;
      if Allocates(options[i - 1]) {
        FieldIsUnwritten(subcommand, before, files, options[i - 1]);
      }
    }
  }

  /** The loop keeps a pointer to every string it copied exactly when no option that copies one came
      after another for the same field; otherwise some are lost, for nothing frees the earlier one. */
  lemma OverwrittenStringsExactly(subcommand: Subcommand, options: seq<Opt>, files: FileSystem)
    requires forall opt :: opt in options ==> !FileFails(files, opt)
    ensures Held(Declared(subcommand, options, files)) <= Allocated(options)
    ensures Held(Declared(subcommand, options, files)) == Allocated(options) <==> NoneRepeated(options)
  {
    StringsBefore(subcommand, options, files, |options|);
    assert options[..|options|] == options;
  }

  lemma NoStrings(subcommand: Subcommand, files: FileSystem)
    ensures Held(Declared(subcommand, [], files)) == 0 && NoneRepeated([])
  {
  }

  /** The passphrase each channel delivers for `s`, `-r` reading a file that holds exactly `s` and
      standard input holding `s` and a newline before `tail`. */
  lemma PassphraseChannels(s: CStr, path: CStr, terminal: Terminal, tail: seq<byte>)
    requires s != [] && NEWLINE !in s && |s| <= LARGEST_VALID_PAYLOAD_SIZE_BYTES && !terminal.Unknown?
    ensures var onCommandLine := PassphraseOf(map[])(PassphraseOpt(s));
            var inFile := PassphraseOf(map[path := s])(PassphraseFileOpt(path));
            var typed := Prompt(terminal, s + [NEWLINE] + tail, LONGEST_VALID_PASSPHRASE);
      && onCommandLine == inFile
      && (|s| <= 1024 <==> onCommandLine == Some(s))
      && typed.Done?
      && (typed.value.secret == s <==> |s| <= 1023)
      && (Some(typed.value.secret) == onCommandLine <==> |s| <= 1023)
      && (typed.value.rest == tail <==> |s| <= 1022)
  {
    CStringUnique(s, s);
    PromptLine(terminal, s, tail, LONGEST_VALID_PASSPHRASE);
    if |s| > 1022 {
      assert |s[1023..] + [NEWLINE] + tail| > |tail|;
    }
  }
}
