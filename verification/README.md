# A verified model of TA-Ref

TA-Ref is a GlobalPlatform TEE API layer in C for Keystone and SGX. This project
models its harder parts in Dafny and proves what they promise, in the Keystone
build with the MBEDCRYPT library on a 64-bit RISC-V target. `dafny verify
dfyconfig.toml` checks everything.

| area | files | source |
|---|---|---|
| printf engine | `Numerals`, `IntegerField`, `AlternateForm`, `Directives`, `PrintfText`, `PrintfEngine`, `PrintfTheorems`, `PrintfArguments`, `IsoPrintf`, `PrintfFields`, `PrintfDeviations` | `api/keystone/vsnprintf.c` |
| encrypted storage | `Cbc`, `Host`, `Storage`, `StorageRuns`, `IoBenchmark` | `api/keystone/tee-internal-api.c`, `edger/keyedge`, `benchmark/io_bench.c` |
| operation handles | `Cbc`, `Gcm`, `GcmTag`, `CryptoOperation`, `OperationRuns` | `api/tee-internal-api-cryptlib.c` |
| strided memory benchmark | `MemoryBenchmark` | `benchmark/memory_bench.c` |
| random fill | `RandomFill` | `api/keystone/tee-internal-api.c` |
| overflow-checked arithmetic | `CheckedArithmetic` | `api/include/compiler.h` |

`Basics` holds what they share. Code that works by changing things is a class or
a method with loops over arrays, specified by functions on sequences; the
theorems are about those functions and about whole runs of the methods.

## How the outside world enters

- AES is a function of a key, the direction of the key schedule, the direction of
  use and a block. The one law assumed (`Aes.Lawful`, a precondition where it is
  needed) is that decryption under a key undoes encryption under it.
- GCM is a keystream by block number and an accumulator with an opening, an
  absorbing and a sealing step, all arbitrary functions. Only tamper detection
  assumes something of them (`GcmTag.Detects`): that no step of the accumulator
  forgets what it was given. `AddingDetects` exhibits such an accumulator.
- The host's files are a map; each transfer moves any positive number of bytes,
  at most 256, by an arbitrary schedule. The attestation signature that yields an
  object's key and nonce is an arbitrary function of the object's identifier.
- Whether `malloc` succeeds is a parameter of the storage and allocation calls.
- Random bytes come from an arbitrary stream of host replies.
- A variadic argument is a 64-bit word together with the string it would point
  to. Reading past the last argument, undefined in C, yields a zero word here.
- Where the source lets a signed int overflow, which C leaves undefined, the result
  is taken to wrap: the negation of a type's least value in `%d` and of a star width
  of -2^31, and the count of random bytes past 2^31 - 1.
- `TEE_Panic` is the outcome `Panic` (or a `true` result); a run stops at it.

## Where the code differs from what it says

Each of these is stated as a theorem about all inputs.

- **Integer conversions.** `IsoPrintf` states what section 7.21.6.1 of ISO C11 asks
  of `%d %i %u %x %X %o` without reference to the engine. A directive prints that
  exactly if `IsoPrintf.Follows` holds of it and its arguments. It fails where a sign
  displaces a digit of a full field (`%+3d` of 100 gives `+00`), where the mark of '#'
  does (`%#4x` of 0x1234 gives `0x34`) or doubles the zero of an octal precision,
  where '-' makes the engine ignore a precision, where zeros stop at 32 characters,
  where `%hhd` meets a negative byte (char is unsigned on the target: -1 gives `255`)
  and where a negative star precision hides a zero or loses its zero padding (`%.*d`
  of -1 and 0 gives nothing, `%05.*d` of -1 and 42 gives `   42`).
  `PrintfDeviations` shows one format for each of five of these.
- **`__INTOF_MUL`** is exact for every unsigned type. For signed types below 64
  bits it refuses the one product that equals the minimum. For 64 bits it refuses
  every product whose low half-words multiply to zero (2^32 * 2) and accepts some
  products past 2^64 with a wrong value (7394967296 * 3100000000). The comment at
  `api/include/compiler.h:134-140` calls the upper half `x1`; the code calls it
  `a0`, and the model follows the code.
- **`TEE_CipherUpdate`** says that input need not be a multiple of the block
  size; such input reports success and produces nothing.
- **`TEE_AEUpdate`** and the final calls document a short-buffer error that the
  code never returns; room in the destination is the caller's duty here too.
- **`TEE_AEInit`** documents a handle that can be used again; it succeeds at most
  once in the life of a handle.
- **`TEE_GenerateRandom`** returns only with a full buffer for lengths up to
  2^31 - 1; past that a host error can pass for the length.
- **Object identifiers** may hold any bytes, but the host receives a C string:
  identifiers without a NUL name different files if they differ, and those that
  differ only behind a NUL share one.
- **`%s`** counts its padding from the string's length as an unsigned int, which
  matters for strings of 2^32 characters and more.
- **The strided benchmark** is a traversal exactly when 5 does not divide the
  size.
- **The split I/O benchmark** stores the whole buffer exactly when 512 divides the
  size (of 528 bytes it stores 512, of 480 none), and what it reads back are the
  bytes that its slices cover, which are all of them for those sizes only.

## Model

| member | source | states |
|---|---|---|
| Numerals.GenerateDigits | api/keystone/vsnprintf.c:242-246 | the do-while leaves exactly `Digits` in the scratch buffer, within its 32 cells |
| Numerals.DigitsDenote | api/keystone/vsnprintf.c:242-246 | for every value and base the digits denote the value modulo base^room, and the value itself if it is smaller |
| Numerals.DigitsLength | api/keystone/vsnprintf.c:242-246 | a value below base^k takes at most k digits |
| Numerals.TopDigit | api/keystone/vsnprintf.c:242-246 | the most significant digit is zero only for the value zero |
| Numerals.ScratchSuffices | api/keystone/vsnprintf.c:42-42 | 64-bit values fit the scratch buffer in bases 8, 10 and 16, and 32-bit values in base 2 |
| Numerals.Atoi | api/keystone/vsnprintf.c:145-152 | reads the leading decimal digits as a number modulo 2^32 and stops after them |
| IntegerField.FieldLength | api/keystone/vsnprintf.c:160-225 | the field length is the larger of width and body exactly unless '0' without '-' meets a width above 32 |
| IntegerField.KeepsSignAndDigits | api/keystone/vsnprintf.c:160-225 | unless the sign displaces a digit or finds no room, the field is spaces, sign, zeros, the value's digits, spaces, and its numeral denotes the scratch value |
| IntegerField.DropsTopDigit | api/keystone/vsnprintf.c:191-193 | in every case where the sign displaces a digit the field is the sign and all digits but the first |
| IntegerField.LosesSign | api/keystone/vsnprintf.c:194-204 | in every case where the buffer is full and the width is not 32 no sign is printed |
| IntegerField.ConformsExactly | api/keystone/vsnprintf.c:156-226 | without '#', the field equals the one of section 7.21.6.1 of ISO C11 if and only if `Conforms` holds |
| Directives.FlagSetHas | api/keystone/vsnprintf.c:446-456 | a flag is set exactly if it is spelled, whatever the order and repetition |
| Directives.PrintedReadsBack | api/keystone/vsnprintf.c:145-152 | what %u prints is read back by _atoi and consumed entirely; a nonzero number does not begin with a flag character |
| Directives.ParseRoundTrip | api/keystone/vsnprintf.c:445-524 | any spelling of flags, nonzero width, precision and length modifier scans back to exactly those and the conversion |
| PrintfEngine.Sink.Out | api/keystone/vsnprintf.c:92-123 | one character goes to the buffer below maxlen, to nowhere, or to the callback, and nothing else changes |
| PrintfEngine.PadZeros | api/keystone/vsnprintf.c:161-166 | zeros up to the wanted length or the end of the scratch buffer |
| PrintfEngine.PlacePrefix | api/keystone/vsnprintf.c:169-188 | the '#' surgery on the scratch buffer, every index within it |
| PrintfEngine.PlaceSign | api/keystone/vsnprintf.c:191-204 | the sign surgery on the scratch buffer, every index within it |
| PrintfEngine.NtoaFormat | api/keystone/vsnprintf.c:156-226 | the emitted text is `Field` of the scratch digits |
| PrintfEngine.EmitNumber | api/keystone/vsnprintf.c:230-275 | the emitted text is `Ntoa` of the value |
| PrintfEngine.IntegerSettings | api/keystone/vsnprintf.c:536-563 | the base and the flags that the conversion cancels |
| PrintfEngine.EmitInteger | api/keystone/vsnprintf.c:534-600 | the emitted text is that of the argument read at its size and signedness |
| PrintfEngine.EmitChar | api/keystone/vsnprintf.c:608-626 | the character justified in its width |
| PrintfEngine.EmitString | api/keystone/vsnprintf.c:628-652 | the string up to its precision, justified in its width |
| PrintfEngine.EmitConversion | api/keystone/vsnprintf.c:527-681 | every conversion other than floating point emits its text and only that |
| PrintfEngine.ScanFlags | api/keystone/vsnprintf.c:446-456 | the flag loop computes the grammar's flags and stops at the first other character |
| PrintfEngine.ScanDirective | api/keystone/vsnprintf.c:445-524 | the scanner computes the grammar's directive and where its conversion character stands |
| PrintfEngine.ResolveWidth | api/keystone/vsnprintf.c:458-473 | a star width comes from the arguments, a negative one setting left justification |
| PrintfEngine.EmitFormat | api/keystone/vsnprintf.c:431-682 | the main loop terminates and emits exactly what the format renders to, argument by argument as `PrintfArguments` counts them |
| PrintfArguments.DirectiveTakes | api/keystone/vsnprintf.c:463-665 | a directive converts the argument after those of its stars and leaves those after it: one for each star and one for d i u x X o b c s p |
| PrintfArguments.FormatTakes | api/keystone/vsnprintf.c:431-682 | a format leaves the arguments after as many as its stars and conversions |
| PrintfArguments.NthArgument | api/keystone/vsnprintf.c:431-682 | behind a format that takes n arguments a directive without stars prints argument n, and the rest of the format begins with the next |
| PrintfFields.CharShown | api/keystone/vsnprintf.c:608-626 | %c shows the low byte at the end of the field that '-' chooses, with spaces in the rest |
| PrintfFields.StringShown | api/keystone/vsnprintf.c:628-652 | %s shows the first min(precision, length) characters at the end that '-' chooses, in a field of the width, exactly if the counted length is that of the text or leaves no padding |
| PrintfFields.PointerShown | api/keystone/vsnprintf.c:654-671 | %p without '-', '#', a sign flag or a precision above 16 shows the word as 16 upper-case hexadecimal digits |
| PrintfFields.BinaryShown | api/keystone/vsnprintf.c:584-600 | %b without '#' shows a binary numeral of the low 32 bits between spaces |
| PrintfFields.PercentShown | api/keystone/vsnprintf.c:672-675 | %% shows a percent sign |
| PrintfEngine.Vsnprintf | api/keystone/vsnprintf.c:421-689 | the result is the full length as an int whatever the sink; a buffer ends up truncated, the callback gets the text and a NUL |
| PrintfEngine.Snprintf | api/keystone/vsnprintf.c:718-731 | for every count: the first min(r, count-1) characters, a NUL, all other cells unchanged; same result for a NULL buffer |
| PrintfEngine.Sprintf | api/keystone/vsnprintf.c:708-715 | the text, a NUL, and the rest of the buffer unchanged |
| PrintfEngine.Fctprintf | api/keystone/vsnprintf.c:734-742 | the callback receives the text in order and then a NUL |
| PrintfTheorems.ScratchDenotes | api/keystone/vsnprintf.c:230-275 | for %d %i %u %x %X %o of any size the scratch digits denote the value, without a leading zero |
| PrintfTheorems.BinaryKeepsLowBits | api/keystone/vsnprintf.c:242-246 | %b of any size prints the digits of the low 32 bits |
| PrintfTheorems.LayoutConforms | api/keystone/vsnprintf.c:156-226 | without '#', the value that the engine reads is laid out as ISO C11 asks if and only if flags, precision, width, digit count and sign conform |
| AlternateForm.AlternateExactly | api/keystone/vsnprintf.c:169-188 | with '#', a value other than zero is laid out as ISO C11 asks if and only if base, digit count, precision, width and flags conform |
| IsoPrintf.DigitIsIso | api/keystone/vsnprintf.c:243-244 | the digit characters are 0-9 and a-f, or A-F for X |
| IsoPrintf.DigitsAreIso | api/keystone/vsnprintf.c:230-275 | the scratch digits reversed are the numeral of the value in the digits of ISO C11 |
| IsoPrintf.IntegerConforms | api/keystone/vsnprintf.c:431-600 | every scanned integer directive with its arguments, stars and '#' included, prints what ISO C11 asks if and only if `Follows` holds |
| IsoPrintf.FormatConforms | api/keystone/vsnprintf.c:431-682 | the same for the text of a format: what ISO C11 asks of its first directive and then the rest, if and only if `Follows` holds |
| PrintfDeviations.SignOverDigit | api/keystone/vsnprintf.c:191-193 | %+3d of 100 prints +00 |
| PrintfDeviations.PrefixOverDigits | api/keystone/vsnprintf.c:169-175 | %#4x of 0x1234 prints 0x34 |
| PrintfDeviations.NegativeByte | api/keystone/vsnprintf.c:579-580 | %hhd of -1 prints 255 |
| PrintfDeviations.LostZero | api/keystone/vsnprintf.c:483-487 | %.*d of -1 and 0 prints nothing |
| PrintfDeviations.LostPadding | api/keystone/vsnprintf.c:483-487 | %05.*d of -1 and 42 pads with spaces |
| PrintfTheorems.SignedKeepsValue | api/keystone/vsnprintf.c:566-582 | %d and %i show the right sign and a numeral of the magnitude unless the sign displaces a digit or has no room; at a type's least value this takes the source's negation to wrap |
| PrintfTheorems.NothingDisplaced | api/keystone/vsnprintf.c:160-204 | a precision and zero-padded width below 32 and a width other than the digit count rule both out |
| PrintfTheorems.UnsignedReadsBack | api/keystone/vsnprintf.c:156-250 | for every n below 2^32, precision and width, %u with '-', '0' or no width is read back by _atoi as n |
| PrintfTheorems.SpelledDirectiveRenders | api/keystone/vsnprintf.c:431-682 | a format that begins with a spelled directive prints the conversion it names and then the rest |
| PrintfTheorems.StarWidthIsSpelled | api/keystone/vsnprintf.c:463-473 | a format with a star width prints what the format with the width written out prints, with '-' for a negative one and none for zero |
| PrintfTheorems.StarPrecisionIsSpelled | api/keystone/vsnprintf.c:483-487 | a format with a star precision prints what the format with the precision written out prints, with 0 for a negative one |
| PrintfTheorems.ParseLocal | api/keystone/vsnprintf.c:445-524 | what follows a complete directive does not change how it is scanned |
| PrintfTheorems.RenderConcat | api/keystone/vsnprintf.c:431-682 | a format followed by a format prints the two texts in order, the second with the arguments left by the first |
| Cbc.CryptCbc | api/keystone/tee-internal-api.c:497-498 | on buffers, in place or disjoint: every output block satisfies its equation of section 6.2 of NIST SP 800-38A, and the next chaining value; an uneven length is refused and changes nothing |
| Cbc.CryptIsChained | api/tee-internal-api-cryptlib.c:793-800 | each ciphertext block is the cipher of its plaintext block added to the ciphertext block before it, and the mirror image for decryption |
| Cbc.CryptAppend | api/tee-internal-api-cryptlib.c:793-800 | processing in two chunks equals processing at once |
| Cbc.ChainingValue | api/keystone/tee-internal-api.c:497-498 | the chaining value left behind is the last ciphertext block, in either direction |
| Cbc.DecryptInverts | api/keystone/tee-internal-api.c:574-576 | decryption with the same key and initial value restores every plaintext |
| Host.Files.OpenFile | edger/keyedge/Enclave_u.c:37-40 | what opening creates, truncates or refuses |
| Host.Files.WriteFile | edger/keyedge/Enclave_t.c:42-48 | one host write moves at least 1 and at most 256 of the bytes offered to a writable file |
| Host.Files.ReadFile | edger/keyedge/Enclave_t.c:19-26 | one host read delivers the next bytes of the file into the buffer, none only at its end |
| Host.OverwriteAt | edger/keyedge/Enclave_u.c:68-71 | a write changes the bytes it covers, keeps the others and leaves zeros in a gap |
| Host.Files.WriteFileFull | edger/keyedge/Enclave_t.c:100-118 | whatever the transfer schedule, every byte reaches a writable file in order |
| Host.Files.ReadFileFull | edger/keyedge/Enclave_t.c:65-83 | whatever the transfer schedule, the buffer receives what the file still has, up to the count |
| Storage.OpenFlags | api/keystone/tee-internal-api.c:198-220 | which access mode and truncation the flags choose: write wins over read, and the mode is invalid exactly if neither is asked for |
| Storage.CString | api/keystone/tee-internal-api.c:330-335 | the host's name for an identifier is its longest prefix without a NUL |
| Storage.NamesDiffer | api/keystone/tee-internal-api.c:330-335 | identifiers without a NUL name the same file if and only if they are equal |
| Storage.SharedName | api/keystone/tee-internal-api.c:330-335 | identifiers that differ only behind a NUL name the same file |
| Storage.OpenPersistentObject | api/keystone/tee-internal-api.c:312-377 | each refusal in its order with its code, the host's files after every outcome, and on success a handle at position 0 with the identifier's own key and nonce |
| Storage.WriteObjectData | api/keystone/tee-internal-api.c:474-513 | for any handle and size: the result, the ciphertext appended or refused, and the chaining value |
| Storage.ReadObjectData | api/keystone/tee-internal-api.c:536-593 | for any handle and size: the result, count, buffer, file position and chaining value, in every error path |
| Storage.CloseObject | api/keystone/tee-internal-api.c:605-631 | panics exactly for a bad handle or an unknown descriptor, and otherwise only closes |
| StorageRuns.ChainingInvariant | api/keystone/tee-internal-api.c:497-498 | throughout a run persist_iv is the last ciphertext block written or read |
| StorageRuns.WriteNext | api/keystone/tee-internal-api.c:474-513 | every write keeps the file the encryption of all that was accepted |
| StorageRuns.WindowOfDecryption | api/keystone/tee-internal-api.c:574-576 | a read at a position yields that window of the decryption of the whole file |
| StorageRuns.ReadNext | api/keystone/tee-internal-api.c:536-593 | every read returns the next window of the stream and keeps the handle in step |
| StorageRuns.CreateStream | api/keystone/tee-internal-api.c:400-413 | WRITE and OVERWRITE begin an empty stream |
| StorageRuns.OpenStream | api/keystone/tee-internal-api.c:432-440 | READ stands at the start of the stored stream |
| StorageRuns.Store | api/keystone/tee-internal-api.c:474-513 | after any sequence of writes and a close the file is the encryption of the accepted chunks, block by block as NIST SP 800-38A asks, and no other file has changed |
| StorageRuns.Load | api/keystone/tee-internal-api.c:536-593 | any sequence of reads returns the matching windows of the decrypted file and changes no file |
| StorageRuns.StoreThenLoad | api/keystone/tee-internal-api.c:312-593 | any write chunking followed by any other read chunking returns the stream written |
| StorageRuns.StoreBothLoadFirst | api/keystone/tee-internal-api.c:312-593 | storing a second object under another identifier does not disturb the first |
| StorageRuns.ReadsMakePrefix | api/keystone/tee-internal-api.c:536-593 | the reads joined are the matching prefix of the stream, and reads at its end are empty |
| IoBenchmark.SlicesTileExactly | benchmark/io_bench.c:64-67 | the 32 slices meet end to end, cover the buffer and are whole blocks if and only if 512 divides the size |
| IoBenchmark.SlicesInOrder | benchmark/io_bench.c:64-67 | tiling slices store the buffer in order |
| IoBenchmark.StreamIs | benchmark/io_bench.c:64-67 | slice i of whole blocks is stored from byte i*size/32 of the buffer |
| IoBenchmark.StoresWholeExactly | benchmark/io_bench.c:64-67 | what the slices store is the buffer if and only if 512 divides the size |
| IoBenchmark.NotWhole | benchmark/io_bench.c:64-67 | of 528 bytes only 512 are stored, and of 480 none |
| IoBenchmark.CoversExactly | benchmark/io_bench.c:64-67 | every byte lies in a slice of whole blocks if and only if 512 divides the size |
| IoBenchmark.IoWriteBenchmark | benchmark/io_bench.c:51-70 | for every size the file is the encryption of the accepted slices, which are the whole buffer if and only if 512 divides the size |
| IoBenchmark.IoReadBenchmark | benchmark/io_bench.c:86-103 | for every size and every stored stream each slice receives its share of the stream and no other byte changes |
| IoBenchmark.IoRoundTrip | benchmark/io_bench.c:51-103 | for every size, reading after writing restores exactly the bytes that the slices cover, all of them if and only if 512 divides the size |
| Gcm.Update | api/tee-internal-api-cryptlib.c:512-512 | on buffers: the keystream applied, the ciphertext absorbed, failing only past the input limit of the mode |
| Gcm.FedTwice | api/tee-internal-api-cryptlib.c:512-512 | a chunk of whole blocks followed by another equals both at once, in text and in tag state |
| Gcm.DecryptionMirrors | api/tee-internal-api-cryptlib.c:669-682 | decrypting a ciphertext returns the plaintext and reaches the same tag |
| GcmTag.AuthenticIs | api/tee-internal-api-cryptlib.c:580-595 | the tag seals the two lengths and the accumulator that opened with the AAD and absorbed the ciphertext block by block |
| GcmTag.ChangeShows | api/tee-internal-api-cryptlib.c:675-681 | a ciphertext changed inside one block does not go with its tag |
| GcmTag.OtherAadShows | api/tee-internal-api-cryptlib.c:675-681 | neither does another AAD of the same length |
| GcmTag.AddingDetects | api/tee-internal-api-cryptlib.c:675-681 | the hypothesis on the accumulator can be met |
| CryptoOperation.AllocateOperation | api/tee-internal-api-cryptlib.c:94-153 | the seven pairs of mode and algorithm that are accepted, and a fresh safe handle for all but digests |
| CryptoOperation.Operation.SetOperationKey | api/tee-internal-api-cryptlib.c:310-336 | which keys are accepted and what of the handle they change |
| CryptoOperation.Operation.AEInit | api/tee-internal-api-cryptlib.c:362-415 | exactly when it succeeds and when it is not supported; success installs key and nonce |
| CryptoOperation.Operation.AEUpdateAAD | api/tee-internal-api-cryptlib.c:433-465 | begins the stream from the handle's nonce; an explicit empty AAD equals the implicit one |
| CryptoOperation.Operation.AEUpdate | api/tee-internal-api-cryptlib.c:488-530 | each refusal, and on success the stream fed and the output produced |
| CryptoOperation.Operation.AEEncryptFinal | api/tee-internal-api-cryptlib.c:556-611 | the same for the last data, with the stream's tag |
| CryptoOperation.Operation.AEDecryptFinal | api/tee-internal-api-cryptlib.c:638-697 | success exactly with the stream's own tag, MacInvalid with any other |
| CryptoOperation.Operation.CipherInit | api/tee-internal-api-cryptlib.c:711-756 | when it panics, and the schedule and chaining value it installs |
| CryptoOperation.Operation.CipherUpdate | api/tee-internal-api-cryptlib.c:779-851 | the next stretch of the chain in either direction, block by block as NIST SP 800-38A asks; an uneven length reports success and changes nothing |
| CryptoOperation.OrderedMeans | api/tee-internal-api-cryptlib.c:362-697 | in a safe handle's trace every AAD or data call comes after an initialisation that came after a key |
| CryptoOperation.OneInit | api/tee-internal-api-cryptlib.c:388-412 | a trace that counts one initialisation has exactly one, and its nonce is the recorded one |
| OperationRuns.Run | api/tee-internal-api-cryptlib.c:310-697 | in every call sequence on a GCM handle the handle stays safe; on a handle without a key at most one TEE_AEInit succeeds, after a successful TEE_SetOperationKey, every successful AAD or data call comes after it, and aeiv keeps its nonce |
| OperationRuns.SafeMeans | api/tee-internal-api-cryptlib.c:388-412 | a nonzero state implies the key flag, exactly one successful initialisation, its nonce still in aeiv and a key before it |
| OperationRuns.CipherChunks | api/tee-internal-api-cryptlib.c:779-851 | any split into whole blocks, in place or not, gives the one-shot result and satisfies the equations of the mode |
| OperationRuns.CbcRoundTrip | api/tee-internal-api-cryptlib.c:711-851 | encrypting in any split and decrypting in any other restores the plaintext |
| OperationRuns.BeginStream | api/tee-internal-api-cryptlib.c:502-504 | omitting the AAD call begins the same stream as an empty AAD |
| OperationRuns.EncryptStream | api/tee-internal-api-cryptlib.c:502-611 | chunks of whole blocks and a last piece: every byte added to its byte of the keystream, and the tag of the AAD and the ciphertext |
| OperationRuns.DecryptStream | api/tee-internal-api-cryptlib.c:502-697 | the same for decryption, with success exactly for the tag of the AAD and the ciphertext |
| OperationRuns.GcmRoundTrip | api/tee-internal-api-cryptlib.c:447-697 | streaming out in any chunks and back in any others succeeds and returns the data |
| OperationRuns.GcmTampered | api/tee-internal-api-cryptlib.c:675-681 | the tag is refused for a ciphertext changed inside one block, for another AAD of the same length, and any other tag for the ciphertext |
| MemoryBenchmark.SlotsDiffer | benchmark/memory_bench.c:53-56 | if 5 does not divide the size no slot is reached twice in a pass |
| MemoryBenchmark.TraversesAll | benchmark/memory_bench.c:53-56 | a pass reaches every slot if and only if 5 does not divide the size |
| MemoryBenchmark.WriteStrided | benchmark/memory_bench.c:51-56 | for every size each slot holds the last index that reached it, modulo 256, the index returns to 0 and nothing past the size changes; without a factor 5 that is i in slot i*5^8 mod size for every i |
| MemoryBenchmark.ReadStrided | benchmark/memory_bench.c:57-62 | sums the bytes at the slots visited modulo 256 and returns to index 0 |
| MemoryBenchmark.RandomMemoryBenchmark | benchmark/memory_bench.c:47-63 | for every size the bytes that remain and their sum; if 5 does not divide the size, every byte is in place and the sum is that of the sequential benchmark |
| MemoryBenchmark.SequentialMemoryBenchmark | benchmark/memory_bench.c:77-89 | the same bytes in address order and the same sum |
| RandomFill.FillIsPrefix | api/keystone/tee-internal-api.c:657-673 | a longer request only adds bytes at the end: no reply is lost, repeated or reordered |
| RandomFill.GetRandom16 | api/keystone/tee-internal-api.c:657-673 | the loop terminates, fills exactly the prefix that arrived, touches nothing else and returns its length or the error |
| RandomFill.GetRandom | api/keystone/tee-internal-api.c:645-674 | the same for every length, with 196 bytes in one reply or not at all |
| RandomFill.ReturnsOnlyWhenFull | api/keystone/tee-internal-api.c:767-770 | for every length the test passes if and only if the buffer is full or the host's error equals the length minus 2^32, hence only if it is full up to 2^31 - 1 |
| RandomFill.GenerateRandom | api/keystone/tee-internal-api.c:763-773 | for every uint32_t length: what the buffer holds, and that it panics exactly if the buffer was not filled and the error does not pass for the length |
| RandomFill.ErrorPassesForLength | api/keystone/tee-internal-api.c:767-770 | 4294967295 bytes wanted and the reply -1: returns with nothing written |
| CheckedArithmetic.IntofMin | api/include/compiler.h:84-89 | the least value of every integer type up to 64 bits, with no step overflowing |
| CheckedArithmetic.IntofMax | api/include/compiler.h:90-90 | the greatest value of every integer type up to 64 bits |
| CheckedArithmetic.Assign | api/include/compiler.h:92-98 | between any two integer types, success with the value itself exactly if it is representable |
| CheckedArithmetic.Add | api/include/compiler.h:100-109 | success with the sum exactly if it fits, no guard overflowing |
| CheckedArithmetic.Sub | api/include/compiler.h:111-120 | success with the difference exactly if it fits, no guard overflowing |
| CheckedArithmetic.UnsignedMulExact | api/include/compiler.h:155-181 | for every unsigned type the product exactly if it fits, no wrapped intermediate trusted |
| CheckedArithmetic.NarrowSignedMulExact | api/include/compiler.h:155-181 | for signed types up to 32 bits exact if and only if an operand is 0 or 1 or the product is not the minimum |
| CheckedArithmetic.LongMulExact | api/include/compiler.h:155-181 | for 64-bit signed operands exact if and only if `LongMulHolds`, a condition on magnitudes, half-words and signs |
| CheckedArithmetic.LongMulRefuses | api/include/compiler.h:177-178 | 2^32 * 2 is refused |
| CheckedArithmetic.LongMulMisreports | api/include/compiler.h:177-178 | 7394967296 * 3100000000 is accepted with a wrong value |

## Left out

- Floating-point conversions (`_ftoa`, %f and %F): formats that use them are not `Supported`, and neither are formats that end inside a directive, which the code reads past.
- %b, which ISO C11 does not have, and %c, %s and %p are modelled and not compared with the standard. '#' on decimals, undefined in the standard, counts as absent.
- A width or precision spelled with a number of 2^32 or more is scanned modulo 2^32; `IsoPrintf` takes the directive as scanned.
- The length in `size_t` is unbounded; only the conversion of the result to int is modelled.
- `_out_char`, `putchar` and the traces built on them.
- PrintfEngine.Snprintf: `sprintf`'s unlimited count is modelled as the largest `size_t`; the buffer must have room for the text, as in C.
- Null operation handles; other null pointers in the AE calls are modelled.
- CryptoOperation.Operation.CipherUpdate: requires that the handle was initialised first, which the source leaves unchecked and undefined.
- Digest, signature and key-generation calls, and handles from the digest branch of allocation, whose memory is not cleared.
- The chaining value is a field and a result of the CBC call, so a data buffer that overlaps the handle is not expressible.
- Gcm.Update: buffers are the same or different arrays; partial overlap, which the library refuses, is not expressible.
- Host.Files.WriteFile: a transfer to an open file never fails; a write that the host breaks off after some bytes still reports success in the source.
- Host.Files.ReadFile: likewise a transfer from an open file never fails.
- Host.Files.WriteFileFull: likewise without host errors in the middle.
- Host.Files.ReadFileFull: likewise without host errors in the middle.
- StorageRuns.WriteNext: malloc succeeds in the runs; Storage.WriteObjectData states the other case.
- StorageRuns.ReadNext: malloc succeeds in the runs; Storage.ReadObjectData states the other case, where the file position has moved on and the chaining value has not.
- The WOLFCRYPT and tiny-AES builds, the SGX and OP-TEE variants, attestation, time functions, the profiler and the demo applications.
- The C integers of the storage and handle layers are unbounded; sizes there are lengths of buffers.
