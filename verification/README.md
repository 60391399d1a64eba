# A verified model of khefin

khefin turns a passphrase and a FIDO2 device into a secret that is the same every time. `enrol`
writes an encrypted keyfile, `generate` reads it back, scans the connected devices and prints the
secret; a boot hook drives `generate` over a directory of keyfiles, and an askpass script finds the
key a prompt is about. This project states those four parts in Dafny and proves what they promise.

Run `dafny verify dfyconfig.toml` to check everything.

## How it is laid out

| file | part of khefin |
|---|---|
| `Basics.dfy`, `Files.dfy` | bytes, C strings, exit codes, how a run ends, `read_file` and `write_file` |
| `Cbor.dfy` | the CBOR subset (RFC 8949 sections 3, 3.1, 3.2.2) as a byte grammar: printer, reader, agreement |
| `CborStore.dfy` | libcbor's reference-counted items, with recursive release |
| `KeyfileFormat.dfy`, `KeyfileSize.dfy` | the two record layouts as functions of bytes; round trips, accepted encodings, shortest form, sizes |
| `KeyfileCodec.dfy` | the readers and writers of `serialization/v1.c` and `serialization.c`, on counted items |
| `Console.dfy` | `prompt_for_secret` on a byte buffer and a stream |
| `Invocation.dfy`, `CommandLines.dfy` | the option loop and its declarative form; which command lines are accepted |
| `Cryptography.dfy`, `Sealing.dfy` | key specifications, sealing and opening, the salt mixin |
| `Authenticator.dfy`, `Enrol.dfy` | devices, parameters, relying party IDs, enrolment |
| `Scan.dfy`, `ScanTheorems.dfy` | what a device scan means; PIN lines; order of devices |
| `Hex.dfy`, `Generate.dfy` | the run of `generate`, with everything it acquires, releases and prints |
| `EndToEnd.dfy` | enrolment followed by generation; undefined behaviour; bug exits; the exit status of `generate`; leftovers; keyfile sizes |
| `RecoveryOutcomes.dfy`, `ScanOutcomes.dfy`, `EnrolOutcomes.dfy` | every outcome of opening a keyfile, of a scanned device and of an enrolment, in terms of what libsodium and the devices answer |
| `Inputs.dfy` | a completed enrolment and its run, and inputs for the rules and promises that fail |
| `BootHook.dfy`, `BootHookRuns.dfy`, `HookAndGenerate.dfy` | the hook, what every run of it keeps, and the hook over `generate` itself |
| `Askpass.dfy` | the two sed substitutions |

Code that works step by step is a method over classes (`Store`, `ClearRecord`, `Parameters`,
`InvocationState`, `World`, `Hook`), proved equal to a function of its inputs; the theorems are lemmas
about those functions. A call ends as `Done`, as `Exit(code)` for every way of leaving the process,
or as `Undefined` where C has no meaning: indexing an empty root array, opening a box with a stored
nonce under 24 bytes, copying a NULL relying party ID, zeroing 32 bytes of a relying party ID under
31 characters, trimming a line that starts with a NUL off a terminal, and a `-n` PIN of 255 bytes,
which leaves its buffer without a NUL. Nothing is claimed of what an undefined run prints or leaves.

libsodium and libfido2 are parameters. The one law assumed of the former (`Cryptography.Lawful`) is
that a sealed message grows by the MAC and opens under the same nonce and key, and that a hash has
the length asked for. The sizes and limits of libsodium's constants are written out as numbers.

## What the proofs found

- INTERNALS.md:26 says the stored AAGUID is empty exactly when `--obfuscate-device-info` was given.
  `enrol_device` always stores it; `EndToEnd.ObfuscationIsNotConsulted` says when the rule still
  holds, and `Inputs.ObfuscationIsIgnored` is an enrolment it fails for.
- man/1/khefin.m4:114 promises the first 1024 bytes of a passphrase on every channel. A prompt gives at
  most 1023; `Invocation.PassphraseChannels` has the exact bounds of all three channels.
- man/1/khefin.m4:58-62 prohibits `-n` outside `enrol` and `generate`. It is never refused: an accepted
  command line has a PIN exactly when it gives one (`Invocation.PinExactlyWhenGiven`), taking every `-n`
  off changes nothing else (`Invocation.PinsAreNeverRefused`), and `enumerate -n PIN` is an input that
  shows it (`Invocation.EnumerateTakesPin`). The rule holds of an accepted line exactly when it has none.
- A passphrase of 1023 bytes read off a pipe is read whole, but its newline stays and becomes an empty
  first PIN line, which moves every PIN on to the next device (`ScanTheorems.PassphraseThenPins`).
- From the plain askpass prompt the path is recovered except when a space and the path end in
  " (will confirm each use)". Besides paths that end so themselves, this loses the one path
  "(will confirm each use)": `Askpass.PlainPromptInverts`, `Askpass.PlainPromptLosesBareWords`.
- A device whose AAGUID does not match is never closed, every PIN buffer but the last is never freed,
  and a run that prints a secret never frees the invocation, which `main` does not free either
  (src/generate.c:93-102): `EndToEnd.LeavesNothingExactly`.
- `free_invocation` (src/invocation.c:286-309) frees every string but the PIN of `-n`, so a `generate`
  given one leaves it live even when no device is connected: `Inputs.GivenPinIsLeft`. The string of an
  option that is given again is lost as well: `Invocation.OverwrittenStringsExactly`.
- `generate` exits 33, for which alone the boot hook asks again, exactly when the keyfile can be read
  and does not open: `EndToEnd.RetriedExactly`.
- The shortest-form law holds because the arrays are short. It holds of an array exactly when that has
  fewer than 24 children; from there on the indefinite form is as short, with other bytes:
  `Cbor.ShortestExactlyBelow24`.
- `nonce_size` is never checked, so a keyfile with a nonce under 24 bytes, which needs no passphrase to
  write, is read past its buffer once a key is derived: `EndToEnd.EmptyNonceIsUndefined`, and
  `EndToEnd.UndefinedExactly` for every way in which opening a keyfile leaves what C defines.
- `free_parameters` zeroes 32 bytes of the relying party ID whatever its length, so with an ID under 31
  characters no scan can print or return: `EndToEnd.ScanUndefinedExactly`. Enrolled IDs have 63;
  `Inputs.ScansThatFail` has an ID of one.
- `write_file` does not enforce the limit of `read_file`, so it can write what cannot be read back:
  `Files.WrittenFileReadsBack`. Keyfiles of ordinary devices stay under it: `EndToEnd.OrdinaryKeyfilesReadBack`.
- A keyfile whose key salt has another size than 16 bytes makes `generate` report a bug in itself,
  and nothing else in a keyfile does while it is being opened: `EndToEnd.BugExitExactly`. During the scan
  an empty credential ID or salt does, exactly when a device is asked: `EndToEnd.ScanBugExactly`.
  `Inputs.EmptySaltIsCalledABug` and `Inputs.ScansThatFail` are inputs of both kinds.

## Model

| member | source | states |
|---|---|---|
| Basics.CString | include/serialization_types.h:31-44 | what a `char *` denotes: the NUL-free part before the first NUL, which follows unless the buffer ends |
| Basics.StrNDup | src/memory.c:67-73 | `strndup` keeps the longest NUL-free prefix of at most n characters |
| Files.WrittenFileReadsBack | src/files.c:7-79 | what was written reads back exactly when it has 1 to 10485760 bytes, other files stay as they are, and when a failed write loses the earlier contents |
| Cbor.BigEndianAt | src/serialization/v1.c:168-217 | arguments are written most significant byte first |
| Cbor.ShortestInfo | src/serialization/v1.c:168-217 | lengths are written with the smallest head that holds them |
| Cbor.InitialBytes | src/serialization/v1.c:168-217 | every byte of each item kind against the constants of RFC 8949: fixed widths for 16, 32 and 64 bits, one or two bytes for 8 bits, the five lengths of a string's head, then its data |
| Cbor.ReadHeadIsExact | src/serialization.c:226-236 | a head that was read is one of the legal heads of its argument, and never shorter than the shortest |
| Cbor.ReadsExactlyTheLegalForms | src/serialization.c:226-242 | the loader reads an array exactly from its legal forms: any head that holds each argument, an integer of its own width, a definite or an indefinite root, and any bytes after it |
| Cbor.ItemReadsBack | src/serialization/v1.c:24-39 | every item the writer emits reads back with its width or its exact bytes, whatever follows |
| Cbor.ItemIsShortest | src/serialization/v1.c:24-39 | any accepted item prints to no more bytes than it was read from, and to the same bytes when as many |
| Cbor.ArrayReadsBack | src/serialization.c:214-219 | a written array reads back with all children and exact length, whatever follows |
| Cbor.ArrayIsShortest | src/serialization.c:228-242 | definite or indefinite, any array under 24 children prints to no more bytes, and identical ones when as many |
| Cbor.ShortestExactlyBelow24 | src/serialization.c:228-242 | fewer than 24 children are also necessary: beyond, the indefinite form reads as the same array, is no longer, and differs |
| CborStore.ReleasePlanted | src/serialization.c:121-124 | one release of a root frees it and each child once, touches nothing already freed, and restores all other items |
| CborStore.Store.Decref | src/serialization/v1.c:38-39 | releases recursively, and may be called only when the release reaches live items alone |
| CborStore.Store.Append | src/serialization/v1.c:174-176 | build, push, drop: the array becomes the only owner of the new field |
| CborStore.Store.Field | src/serialization/v1.c:23-39 | get, look, drop: the field's value, with every count as before |
| CborStore.Store.Load | src/serialization.c:227-242 | a successful load makes exactly the root and its children, each owned once |
| CborStore.Store.Serialize | src/serialization.c:216-219 | the bytes are those of a definite array of the children, in order |
| KeyfileFormat.ClearFieldAtIndex | include/serialization/v1.h:17-26 | whatever item a written keyfile gets at a header index, loading changes just the field of that index, or refuses an item of another kind or width |
| KeyfileFormat.SecretsFieldAtIndex | include/serialization/v1.h:28-33 | the same for the encrypted layer |
| KeyfileFormat.ClearOf | src/serialization/v1.c:11-166 | a record read from eight items is the one whose fields write those items |
| KeyfileFormat.LoadClear | src/serialization.c:226-266 | every refusal exits 36, only an empty root array is undefined, and the version bug exit is never taken |
| KeyfileFormat.LoadSecrets | src/serialization.c:167-206 | the same for the encrypted layer |
| KeyfileFormat.ClearRoundTrip | src/serialization.c:208-266 | reading back with any tail gives the record exactly when it is version 1 with an algorithm of 16 bits; otherwise which bits are lost or how it is refused |
| KeyfileFormat.ClearBytes | src/serialization/v1.c:168-217 | the bytes of a keyfile: 0x88 and the eight fields in order |
| KeyfileFormat.SecretsBytes | src/serialization/v1.c:325-354 | the bytes of the encrypted layer: 0x84 and the four fields in order |
| KeyfileFormat.ClearPrefixFree | src/serialization.c:208-266 | no keyfile is a prefix of another record's keyfile; writing is injective |
| KeyfileFormat.ClearShortest | src/serialization.c:208-266 | re-writing any loaded keyfile takes no more bytes than were consumed, and identical ones when as many |
| KeyfileFormat.ClearAcceptsExactly | src/serialization.c:226-266 | a keyfile loads as a record exactly when the record is loadable and the bytes consumed are some legal form of its fields |
| KeyfileFormat.ClearIndefinite | src/serialization.c:226-266 | every record has an accepted keyfile one byte longer than the written one |
| KeyfileFormat.SecretsRoundTrip | src/serialization/v1.c:219-354 | with C-string meaning, secrets read back exactly when version 1 with a non-empty relying party ID |
| KeyfileFormat.SecretsShortest | src/serialization/v1.c:219-354 | the shortest-form law for the encrypted layer, even for text with an embedded NUL |
| KeyfileFormat.SecretsAcceptExactly | src/serialization.c:167-206 | the same agreement for the encrypted layer, over every text string that stands for the relying party ID |
| KeyfileCodec.SerializeClearV1 | src/serialization/v1.c:168-217 | leaves the root sole owner of the eight fields in order and all other items unchanged |
| KeyfileCodec.SerializeSecretsV1 | src/serialization/v1.c:325-354 | the same for the four secret fields |
| KeyfileCodec.DeserializeClearV1 | src/serialization/v1.c:11-166 | refuses exactly the item lists of another shape, else fills the record, and frees the whole tree |
| KeyfileCodec.DeserializeSecretsV1 | src/serialization/v1.c:219-323 | the same for the secrets, an empty text string becoming NULL |
| KeyfileCodec.WriteCleartext | src/serialization.c:208-224 | the bytes of the record, no item outliving the call |
| KeyfileCodec.LoadCleartext | src/serialization.c:226-266 | agrees with the byte-level loader on every input, no item outliving a success |
| KeyfileCodec.LoadSecretsFromBytes | src/serialization.c:167-206 | agrees with the byte-level loader on every input, no item outliving a success |
| KeyfileSize.ClearSize | src/serialization/v1.c:168-217 | the written length as a closed form of head and field sizes |
| KeyfileSize.SecretsSize | src/serialization/v1.c:325-354 | the same for the encrypted layer before sealing |
| Console.Fgets | src/invocation.c:269-279 | takes the first line or one byte less than the size, whichever is shorter, NUL-terminated |
| Console.PromptForSecret | src/invocation.c:234-284 | leaves the trimmed C string in the buffer and the rest on standard input, or ends as `Prompt` says |
| Console.PromptLine | src/invocation.c:269-279 | a NUL-free line gives its first size-1 bytes; its newline goes with it exactly up to size-2 bytes |
| Console.PromptLastLine | src/invocation.c:269-279 | the last line of an input without a final newline gives its first size-1 bytes |
| Console.PromptWithNul | src/invocation.c:269-279 | a NUL ends the secret, and the rest of its line is taken all the same |
| Console.PromptUndefinedExactly | src/invocation.c:234-284 | exit 68 exactly for standard input that cannot be used or has ended; undefined exactly for a NUL at its start off a terminal |
| Invocation.LatestIsLast | src/invocation.c:51-142 | the value a field ends with is that of the last option writing it |
| Invocation.TakeOption | src/invocation.c:75-141 | one option overwrites one field, flags itself as bad, or ends the process for an unreadable file |
| Invocation.DeclaredStep | src/invocation.c:51-142 | the declarative fields advance by exactly one overwrite per option |
| Invocation.ParseArguments | src/invocation.c:18-232 | the loop, the checks, the automatic hardness and the prompt agree with the declarative `Parse` on every command line |
| Invocation.LastOptionWins | src/invocation.c:75-141 | for each option kind, what the field is when no later option writes it: `-p` and `-r` share one, truncations, hardness letters in either case |
| Invocation.UnwrittenField | src/invocation.c:24-32 | a field that no option writes keeps its initial value |
| Invocation.ReturnedInvocation | src/invocation.c:176-231 | what a returned enrol, generate or other invocation guarantees; enrol has a real hardness |
| Invocation.BadOptionAndHelpAbsorb | src/invocation.c:134-141 | a bad option or extra word always ends in exit 32 except under help, which is always given |
| Invocation.PassphraseChannels | src/invocation.c:86-100 | `-p`, `-r` and a typed line agree exactly up to 1023 bytes; the newline is consumed exactly up to 1022 |
| Invocation.ObtainPin | src/generate.c:62-68 | the PIN is the option's or the next line's, and the rest of standard input stays |
| Invocation.PinsAreNeverRefused | src/invocation.c:176-205 | removing every `-n` changes neither acceptance nor any field but the PIN nor what is read |
| Invocation.PinExactlyWhenGiven | man/1/khefin.m4:58-62 | an accepted command line of any subcommand carries a PIN exactly when it has a `-n`, so the documented prohibition holds exactly without one |
| Invocation.EnumerateTakesPin | src/invocation.c:189-199 | `enumerate -n PIN` is accepted with that PIN |
| Invocation.OverwrittenStringsExactly | src/invocation.c:75-123 | the loop keeps a pointer to every string it copied exactly when no copying option followed another for the same field |
| CommandLines.RefusedExactly | src/invocation.c:19-205 | for each first word, which options, extra words and last `-k` make exit 32, and that an unreadable `-r` file makes exit 36, and nothing else does |
| CommandLines.EndsAtThePromptExactly | src/invocation.c:222-229 | an accepted command line fails only for a passphrase that is to be read, and exactly when standard input does not give it |
| CommandLines.ReturnedFields | src/invocation.c:207-231 | the subcommand of each first word, the hardness taken from the machine's memory at 536870912 and 2147483648 bytes, and the passphrase read |
| CommandLines.ReturnedOptions | src/invocation.c:75-141 | every field of an accepted command line is what the last option for it says |
| CommandLines.UngivenFields | src/invocation.c:24-32 | a field is set exactly when an option for it was given |
| Cryptography.NewKeySpec | src/cryptography.c:59-101 | fails exactly for an unspecified or invalid hardness; always at least 3 operations and a 16-bit algorithm |
| Cryptography.HardnessIsOrdered | src/invocation.c:207-219 | automatic hardness is the most whose memory fits twice into the machine's, or low |
| Cryptography.MakeNewKeySpec | src/cryptography.c:59-101 | the switch and the clamp fill the record `NewKeySpec` names |
| Cryptography.MakeKeySpecFromCleartext | src/cryptography.c:40-57 | takes every parameter of the key from the keyfile |
| Cryptography.Derived | src/cryptography.c:11-30 | the salt-size bug exit is taken exactly for another size than 16, and a key is what the password hash gives for the passphrase and the stored parameters |
| Cryptography.DeriveKey | src/cryptography.c:11-30 | the steps agree with `Derived` |
| Authenticator.DeviceSupportsHmacSecret | src/authenticator.c:78-89 | true exactly when hmac-secret is among the extensions |
| Authenticator.DeviceAaguidMatches | src/generate.c:139-165 | true exactly when nothing is stored or the AAGUIDs are equal |
| Authenticator.Parameters.constructor | src/authenticator.c:142-188 | fresh buffers, a 32-byte constant client data hash, no PIN |
| Authenticator.Created | src/authenticator.c:241-329 | a credential ID is what the device answers to the request and the PIN, never empty, and failures exit 65 or 37 |
| Authenticator.CreateCredential | src/authenticator.c:241-329 | stores the ID the device returned or ends as `Created` says |
| Sealing.XorDiffers | src/serialization.c:50-52 | exclusive or sets a bit exactly where the operands differ |
| Sealing.XorBytesTwice | src/serialization.c:50-52 | mixing the same bytes in twice restores the salt |
| Sealing.XorInto | src/serialization.c:50-52 | the loop mixes every byte of the salt in place |
| Sealing.BuildParameters | src/serialization.c:14-57 | opening, loading, copying and mixing agree with `Unsealed`, a short nonce included, no CBOR item outliving a success |
| Sealing.BuildCleartext | src/serialization.c:59-127 | the sealed record, no CBOR item outliving a success |
| Sealing.SealThenUnseal | src/serialization.c:14-127 | opening what was sealed recovers relying party ID, credential ID and salt, the salt mixed as asked, under the key the record leads back to |
| Enrol.RelyingPartyIdCharacters | src/enrol.c:30-39 | each character is the base32 digit (RFC 4648 section 6) of its draw, and `.v1.fido2-hmac-secret.localhost` follows |
| Enrol.RelyingPartyIdIsInjective | src/enrol.c:33-36 | different draws give different relying party IDs |
| Enrol.GenerateRelyingPartyId | src/enrol.c:30-39 | the buffer loop and the concatenation build that NUL-free ID |
| Enrol.EnrolDevice | src/enrol.c:13-89 | agrees with `Enrolled` on every outcome, consumes only its PIN line, leaks no CBOR item |
| Hex.OfBytesReadsBack | src/generate.c:89-92 | the printed digits decode to the secret |
| Hex.OfBytesAt | src/generate.c:89-92 | each byte is two lower-case digits, the high one first |
| Hex.OfBytesIsInjective | src/generate.c:89-92 | different secrets print differently |
| Scan.FirstMatch | src/generate.c:33-136 | the first device that does not pass decides the scan, in every outcome, each exactly when |
| ScanOutcomes.AskedExactly | src/authenticator.c:407-445 | for a complete request the scan goes on exactly after the five replies, prints exactly an OK with bytes, and ends with 65 exactly for a refused request, an OK without bytes or any other reply |
| ScanOutcomes.AskedInVainExactly | src/authenticator.c:340-350 | 96 exactly without a credential ID or a salt, and what each reply leads to with a short relying party ID |
| ScanOutcomes.NotAskedExactly | src/generate.c:38-79 | an unusable device ends with 65, another AAGUID or no hmac-secret or an empty PIN is passed over, no PIN line ends with 68 |
| ScanOutcomes.AskersAreCounted | src/generate.c:40-79 | the devices a line goes to are those of the stored AAGUID, or any when none is stored, with hmac-secret and a PIN |
| ScanOutcomes.CarriedLine | src/generate.c:47-79 | a device without a PIN is sent the line of the last device that had one |
| ScanOutcomes.CarriedOption | src/generate.c:65-68 | with `-n` nothing is read, and the PIN is carried from the first device that asks on |
| ScanOutcomes.LeftoversExactly | src/generate.c:38-130 | what is live after a scan, object by object |
| ScanTheorems.OneLinePerAsker | src/generate.c:33-79 | before any device, exactly one line has gone for each earlier matching hmac-secret device with a PIN |
| ScanTheorems.PinLineGoesToItsDevice | src/generate.c:49-79 | the k-th line of at most 253 bytes is the k-th such device's PIN; an empty line skips it |
| ScanTheorems.MissingPinLine | src/invocation.c:269-274 | when the lines run out the next such device ends the process with 68 |
| ScanTheorems.PassphraseThenPins | src/invocation.c:222-229 | a piped passphrase leaves the PIN lines to the scan exactly up to 1022 bytes; at 1023 every PIN moves on by one device |
| ScanTheorems.VerdictIsOwn | src/generate.c:47-79 | with `-n`, the PIN left in the shared parameters changes no later verdict |
| ScanTheorems.OrderIndependence | src/generate.c:33-136 | result and output are the same for every order of devices when all verdicts that end a scan agree, fatal codes and undefined ones included |
| ScanTheorems.OrderIndependenceExactly | src/generate.c:33-136 | that agreement is also necessary |
| Generate.World.PrintSecret | src/generate.c:89-92 | prints the hex digits and one newline |
| Generate.FreeParameters | src/authenticator.c:195-239 | frees the parameters and the PIN buffer they hold, which must be live; undefined exactly for a relying party ID under 31 characters |
| Generate.GetSecret | src/authenticator.c:331-445 | retryable failures free nothing, fatal ones close the device and free the parameters, except for a missing credential ID or salt and an empty secret, an answer adds one buffer |
| Generate.AskDevice | src/generate.c:81-119 | prints and frees everything on an answer, closes the device and frees the secret on a retryable failure |
| Generate.TryDevice | src/generate.c:33-121 | one turn acts as its verdict says on output, standard input, carried PIN and live resources |
| Generate.AskForSecret | src/generate.c:47-119 | the same from the PIN on, for a device that matches and supports hmac-secret |
| Generate.PrepareToAsk | src/generate.c:47-79 | a PIN goes into a new buffer, the rest of standard input stays, and an empty one closes the device |
| Generate.ScanDevices | src/generate.c:33-137 | the loop refines the verdict-by-verdict scan; parameters and cleartext are live at every turn and freed once on return |
| Generate.RecoverParameters | src/generate.c:16-31 | file, key specification and key are freed once; the parameters are those of the keyfile |
| Generate.PrintSecretConsumingInvocation | src/generate.c:13-137 | the whole command, from file bytes and devices to return code, output and what stays live, the `-n` string included |
| EnrolOutcomes.EnrolCodesExactly | src/enrol.c:13-60 | 37 exactly for an empty PIN or one the device calls invalid, 65 exactly for a device that cannot be enrolled, refuses, fails otherwise or gives no ID |
| EnrolOutcomes.EndsBeforeTheCredential | src/enrol.c:13-57 | how an enrolment without a device or a PIN ends |
| EnrolOutcomes.EndsInTheKeyfile | src/enrol.c:59-85 | with a credential, the hardness, the password hash and the box decide between 96, 64, 66 and the keyfile, field by field |
| EnrolOutcomes.CompletedHolds | src/serialization.c:59-127 | the stored salt and nonce are the drawn ones, the limits are those of the hardness, the credential ID is the device's answer to the PIN, and the box seals the secrets under the passphrase's key |
| RecoveryOutcomes.RecoversExactly | src/serialization.c:14-57 | opening succeeds exactly when the password hash of the passphrase gives a key, the box opens under it and its secrets have a name, and what it then gives |
| RecoveryOutcomes.OutOfMemoryExactly | src/cryptography.c:19-27 | exit 64 exactly when the password hash fails or the box is shorter than its MAC |
| RecoveryOutcomes.OutcomeOfOpened | src/serialization.c:26-54 | after the box opened, 36 exactly for secrets that do not load and 66 exactly for a mixin that cannot be hashed |
| RecoveryOutcomes.NotLoaded | src/serialization.c:226-266 | a keyfile that does not load exits 36, or is undefined for an empty root |
| EndToEnd.EnrolThenRecover | src/enrol.c:27-85 | with the enrolment's passphrase, generation recovers exactly what was enrolled, whatever follows the keyfile |
| EndToEnd.MixinXorsSalt | src/serialization.c:42-54 | a mixin changes only the salt, to the stored one XORed pointwise with its hash, and mixing again restores it |
| EndToEnd.EnrolledDevicePrints | src/generate.c:40-103 | the enrolled device passes the AAGUID filter and, first to answer, makes the run print the hex of its HMAC and return 0 |
| EndToEnd.ObfuscationIsNotConsulted | src/enrol.c:68-72 | the AAGUID is stored whatever the invocation says, and when the documented rule holds all the same |
| EndToEnd.BugExitExactly | src/cryptography.c:11-17 | opening any bytes reaches a bug exit exactly when the key salt is not 16 bytes |
| EndToEnd.BadPassphraseExactly | src/serialization.c:17-25 | opening any bytes exits 33 exactly when a key is derived and the box, long enough and with a full nonce, does not open |
| EndToEnd.ScanExits | src/generate.c:33-137 | a scan ends the process with 65, 68 or 96 only, never with 33 |
| EndToEnd.RetriedExactly | scripts/mkinitcpio/run.m4:99-116 | from command line to exit status, `generate` exits 33 exactly when the keyfile is readable and does not open under the passphrase given |
| EndToEnd.StatusesOfScan | src/main.c:52-72 | from command line to exit status, 0, 34 and 35 exactly for a scan of what the keyfile gives, with the `-n` PIN and the standard input the command line left |
| EndToEnd.UndefinedExactly | src/serialization.c:14-57 | opening any bytes is undefined exactly for an empty root, or when a key is derived and the record has a short nonce or opens to an empty root or to no relying party ID |
| EndToEnd.EmptyNonceIsUndefined | src/serialization/v1.c:127-143 | a keyfile in order but for an empty nonce is undefined exactly when the password hash succeeds |
| EndToEnd.EnrolledKeyfileIsDefined | src/serialization.c:72-75 | an enrolled keyfile has a full nonce, and is undefined only under a key that opens it to something never sealed |
| EndToEnd.ScanUndefinedExactly | src/authenticator.c:220-224 | a scan is undefined exactly for a PIN that traps or for freeing a short relying party ID, with which none prints or returns |
| EndToEnd.ScanBugExactly | src/authenticator.c:340-350 | the scan reaches its bug exits exactly when credential ID or salt is empty and every device before the first that is asked passes |
| EndToEnd.EnrolledKeyfileHasNoBugExits | src/authenticator.c:340-350 | with an enrolled keyfile neither opening nor scanning reaches a bug exit, and its own passphrase opens it |
| EndToEnd.ParsedEnrolmentHasNoBugExit | src/cryptography.c:66-85 | an enrolment the command line allowed never reaches the hardness bug exit, and is undefined exactly for a PIN that its buffer cannot hold |
| EndToEnd.MainHandlesEveryScan | src/main.c:57-72 | `main` handles every code the scan returns; 34 means no devices, 0 means a first answer |
| EndToEnd.HookPassphraseArrives | scripts/mkinitcpio/run.m4:94-95 | whatever other files there are, the boot hook's passphrase reaches `generate` whole exactly when it has 1 to 1024 bytes; an empty one exits 36 |
| EndToEnd.LeavesNothingExactly | src/generate.c:38-130 | counting from the parsed invocation, a scan without a secret leaves nothing live exactly when there was no `-n`, every device matched and at most one asked for a PIN; one that printed always leaves the invocation and any `-n` string, and nothing else exactly under the same condition on devices up to its own |
| EndToEnd.EnrolledSize | src/serialization.c:107-111 | an enrolled keyfile's size in its two variable parts |
| EndToEnd.EnrolledKeyfileReadsBack | src/files.c:34-38 | with a 16-byte AAGUID a written keyfile can be read back exactly for credential IDs of at most 10485518 bytes |
| EndToEnd.OrdinaryKeyfilesReadBack | include/files.h:6-8 | any credential ID of at most 65535 bytes (WebAuthn Level 2 section 6.5.1) fits |
| EndToEnd.EnrolWriteGenerate | src/enrol.c:84-86 | a keyfile written over whatever was at its path gives `generate` the enrolled parameters, unless it is longer than the reader allows |
| Inputs.CompletedEnrolmentExists | src/enrol.c:13-89 | with a lawful cryptography and a willing device, an enrolment runs to its end |
| Inputs.ObfuscationIsIgnored | INTERNALS.md:26 | an enrolment asked to obfuscate stores a non-empty AAGUID |
| Inputs.SampleRunPrints | src/generate.c:13-103 | generation from that keyfile on that device returns 0 and prints its secret |
| Inputs.EmptySaltIsCalledABug | src/cryptography.c:11-17 | a keyfile with an empty key salt ends in the bug exit under every cryptography and passphrase |
| Inputs.ScansThatFail | src/authenticator.c:220-350 | a scan for a one-character relying party ID is undefined, one without a credential ID ends in the bug exit |
| Inputs.NothingOpens | src/serialization.c:20-25 | under a cryptography that opens nothing every enrolled keyfile exits 33 |
| Inputs.WrongPassphraseExits33 | src/serialization.c:20-25 | under a cryptography whose boxes open under their own key alone, a keyfile exits 33 for exactly the passphrases it was not enrolled with |
| Inputs.LockedEnrolmentExists | src/enrol.c:13-89 | an enrolment under that cryptography completes |
| Inputs.StrangerIsPassedOver | src/generate.c:104-121 | a key that was not enrolled is passed over, and the next one prints |
| Inputs.AskpassCallIsAccepted | scripts/ssh-askpass.m4:59-67 | `generate -f -m -p ""` is accepted with its mixin and an empty passphrase |
| Inputs.GivenPinIsLeft | src/invocation.c:286-309 | `generate -f -p -n` with no device is accepted, returns 34 and leaves exactly the PIN string live |
| BootHook.Hook.TryOnce | scripts/mkinitcpio/run.m4:78-97 | prompts exactly when there is no passphrase, calls with it in the file, and empties the file |
| BootHook.Hook.TryKeyfile | scripts/mkinitcpio/run.m4:69-117 | the tries on one keyfile, until success, a last try or another failure |
| BootHook.Hook.Run | scripts/mkinitcpio/run.m4:13-121 | terminates with the one complete run of next-call steps; no call is made exactly when no device was found and none may be, or was, inserted; `cryptkey` is set exactly when the last call returned 0; the file is empty |
| BootHookRuns.RunIsUnique | scripts/mkinitcpio/run.m4:60-118 | a setup and the exit codes determine the run |
| BootHookRuns.KeyfilesInOrder | scripts/mkinitcpio/run.m4:64-118 | each keyfile reached was tried at least once and at most as often as the attempts setting allows, 3 times unless it is a number above zero, all before the next, entries that are no files never |
| BootHookRuns.RetryOnlyAfterBadPassphrase | scripts/mkinitcpio/run.m4:99-116 | the same keyfile is tried again exactly after 33, without a hardcoded passphrase, while another try is allowed |
| BootHookRuns.CompleteRunTriesEveryKeyfile | scripts/mkinitcpio/run.m4:64-118 | a finished run skipped exactly the keyfiles after the one that succeeded |
| BootHookRuns.RunIsBounded | scripts/mkinitcpio/run.m4:111-114 | at most as many calls as the attempts setting, or 3, times the number of entries |
| BootHookRuns.PromptingTrace | scripts/mkinitcpio/run.m4:47-57 | which calls are prompted for with a hardcoded passphrase, with the same one for every keyfile and with neither, what passphrase each uses, and that the file holds it |
| BootHookRuns.NeverPrompting | scripts/mkinitcpio/run.m4:47-50 | a fixed passphrase is used once per keyfile and never changes |
| BootHookRuns.AlwaysPrompting | scripts/mkinitcpio/run.m4:72-75 | the k-th call uses the k-th line typed |
| BootHookRuns.NextLineTyped | scripts/mkinitcpio/run.m4:78-88 | a prompted call uses the line whose number is that of the prompted calls before it |
| HookAndGenerate.BadPassphraseCall | scripts/mkinitcpio/run.m4:93-104 | a call exits 33 exactly when its passphrase and its keyfile can be read and the keyfile does not open under the first 1024 bytes |
| HookAndGenerate.AsksAgainExactly | scripts/mkinitcpio/run.m4:99-116 | over `generate` itself, the hook asks again exactly when nothing is hardcoded, another try is allowed and the keyfile did not open under what was typed |
| Askpass.DropConfirmExactly | scripts/ssh-askpass.m4:64 | the first substitution removes its words exactly when they end what stands before the last colon |
| Askpass.ExtractFromPrompt | scripts/ssh-askpass.m4:64 | the second recovers any non-empty path, colons included, up to the last colon |
| Askpass.ConfirmPromptInverts | man/1/khefin-ssh-askpass.m4:31-32 | the confirming prompt always gives its path back |
| Askpass.PlainPromptInverts | man/1/khefin-ssh-askpass.m4:28-29 | the plain prompt gives its path back exactly when a space and the path do not end in the dropped words |
| Askpass.PlainPromptLosesBareWords | scripts/ssh-askpass.m4:64 | the bare words as a path are not recovered, though that path does not end in the words with their space |
| Askpass.DropConfirmOnlyThere | scripts/ssh-askpass.m4:64 | a line the first substitution changes ends in the words, a colon and spaces |
| Askpass.ExtractKeepsTheFront | scripts/ssh-askpass.m4:64 | the second keeps what stands before its words and drops all from the last colon on |
| Askpass.LinesApart | scripts/ssh-askpass.m4:64 | each line is substituted by itself |
| Askpass.SpacesExactly | scripts/ssh-askpass.m4:64 | the five characters that count as space inside a line |
| Askpass.PromptsOfSshAgent | man/1/khefin-ssh-askpass.m4:28-32 | both prompts, in their own words |

## Left out

- libsodium, libfido2 and USB: functions of their inputs, with no claim about cryptographic strength; a device answers one request with one PIN the same way within a run.
- libcbor beyond the subset: any other item kind, also nested or in a longer array, reads as a refusal, which exits with the same code; its check that text strings are UTF-8 depends on the version and is not modelled, so `LoadSecrets` accepts any bytes there.
- Out-of-memory exits, except the one that a size wrapping around below zero leads to in `Unsealed`; an allocation of no bytes is taken to succeed, and a copy of no bytes from or to NULL to do nothing. Memory locking, and zeroing but for the one that overruns a short relying party ID.
- Failing `fido_dev_close`, which only warns and skips a free; writes of the keyfile that fail once the file is open, except for want of data; failing `ferror`, `tcgetattr` and `tcsetattr`.
- `getopt_long` itself: the model starts from its results and the words it leaves over.
- The heap objects of `enrol_device`: ownership is proved for the CBOR items of every call and for all objects of `generate` from the parsed invocation on, where a struct counts as one object with its fields because the function that frees it frees them all; the invocation's PIN, which `free_invocation` does not free, counts by itself. Strings overwritten by a repeated option are counted by the parse, not in what a scan leaves.
- Messages, prompts' wording, help, usage, `enumerate`, the `get-passphrase` and `Allow use of key` modes of the askpass script, the trailing newlines a command substitution drops, mounting in the boot hook (an existing mount point is only reported), and the LUKS and initramfs wrappers.
- The boot hook's sentinel for an unset passphrase is an option type, so a typed passphrase equal to the sentinel is not modelled; `read` is its result, blanks already trimmed.
- Random draws are inputs of the enrolment; nothing is said about their distribution.
