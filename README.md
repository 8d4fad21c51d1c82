# HPS LED patterns: a Dafny model

This project models the sequential core of an FPGA LED-pattern peripheral on a DE10-Nano style
SoC. It covers three parts:

- the Linux platform driver's UQ4.4 fixed-point codec, with `str2UQ44` parsing a decimal rate
  and `base_rate_show` printing it back;
- the driver's character device, which reads and writes the 16-byte register window one aligned
  32-bit word at a time, with writes made under the device mutex;
- the user-space `myLEDpatterns` program, which collects pattern steps from the command line or
  a pattern file and cycles them through the pattern register with the hardware override set.

Modules:

- `CTypes` (c_types.dfy): `u8`/`u32` as subset types of `int`, and the C conversions to them.
- `RegOffsets` (reg_offsets.dfy): the register layout of `reg_offsets.h`.
- `Decimal` (decimal.dfy): the value of a digit string, and the `%u` / `%04u` renderings.
- `Uq44` (uq44.dfy): `str2UQ44` as an imperative method with its three loops, proved against
  recursive specification functions. The arithmetic is 32-bit unsigned with explicit wrap-around.
  It also holds the `base_rate_show` decode.
- `Uq44Laws` (uq44_laws.dfy): what `str2UQ44` computes, stated in decimal terms.
- `Uq44Findings` (uq44_findings.dfy): two places where `str2UQ44` wraps, and a corrected encoder.
- `RegisterWindow` (register_window.dfy): the device as a class over a 4-word register array, a
  file offset and a lock flag. It holds `read`, `write`, `llseek` and the three `show` functions.
- `PatternStore` (pattern_store.dfy): `struct arguments` as a class over the two fixed-size step
  arrays, with `parse_opt` and `load_pattern_file` as methods.
- `Playback` (playback.dfy): `main` after argument parsing. What it does to the hardware is
  recorded as a trace of `write_mem` and `nanosleep` events.
- `Arith` (arith.dfy): small facts about integer division used by the proofs.

Inputs from the outside world become parameters:

- the number of bytes `copy_to_user`/`copy_from_user` leave uncopied, and the word the latter
  delivers;
- the integers `strtol` returns for each argument;
- whether `fopen` succeeds, and the two values `sscanf` leaves for each line;
- whether `/dev/mem` opens and maps;
- the number of loop-top checks that pass before SIGINT is seen. This also bounds a looping
  playback.

## Model

| member | source | states |
|---|---|---|
| CTypes.ToU32 | src/driver/hps_led_patterns.c:40 | the C conversion to `unsigned int`; it is the identity on values that already fit in 32 bits |
| CTypes.WrapOnce | src/driver/hps_led_patterns.c:64-71 | no contract: the 32-bit wrap of a sum or a double below 2^33, which the specification functions use |
| CTypes.WrapOnceIsToU32 | src/driver/hps_led_patterns.c:64-71 | subtracting 2^32 once from a sum below 2^33 is the same 32-bit wrap-around as reduction mod 2^32 |
| CTypes.ToU8 | src/myLEDpatterns.c:157 | the C conversion to `uint8_t`; it is the identity on values that already fit in a byte |
| RegOffsets.RegisterAt | src/driver/reg_offsets.h:5-10 | an offset names a slot exactly when it is aligned and below SPAN; 0x0, 0x4 and 0x8 are exactly the control, LED and base-rate registers |
| RegOffsets.OffsetOf | src/driver/reg_offsets.h:5-7 | every register's offset is aligned, lies inside the span, and names that register back |
| RegOffsets.OffsetsAligned | src/driver/reg_offsets.h:5-7 | each register offset is a multiple of the 4-byte word |
| RegOffsets.OffsetsInSpan | src/driver/reg_offsets.h:5-10 | each register offset lies strictly below SPAN = 0x10 |
| RegOffsets.OffsetsDistinct | src/driver/reg_offsets.h:5-7 | the three register offsets are pairwise distinct |
| RegOffsets.SpanSlots | src/driver/reg_offsets.h:9-10 | the span holds exactly the four aligned slots 0x0, 0x4, 0x8 and 0xC, and 0xC is the reserved one that the test program reads as the empty register |
| Decimal.Value | src/driver/hps_led_patterns.c:39-44 | the decimal value of a digit string is below ten to its length |
| Decimal.ValueConcat | src/driver/hps_led_patterns.c:40 | the value of two digit strings written one after the other is a place-value shift of the first plus the second |
| Decimal.DecimalText | src/driver/hps_led_patterns.c:241 | `%u`: a non-empty digit string with no leading zero that denotes the number |
| Decimal.PaddedText | src/driver/hps_led_patterns.c:241 | `%04u`: a digit string that denotes the number, exactly four digits long when the number is below 10000 |
| Uq44.ScanInt | src/driver/hps_led_patterns.c:39-44 | no contract: the specification the loop methods are proved equal to: the integer loop from index `i` holding `ipart`; `Saturated` is the early `return U8_MAX` |
| Uq44.ScanFrac | src/driver/hps_led_patterns.c:48-58 | no contract: the specification the loop methods are proved equal to: the fraction loop from index `i` holding `fpart` over `one` |
| Uq44.Binarize | src/driver/hps_led_patterns.c:63-70 | no contract: the specification the loop methods are proved equal to: the remaining rounds of double, compare and subtract |
| Uq44.Synthesize | src/driver/hps_led_patterns.c:71-77 | no contract: `result += ipart << 4` with its 32-bit wrap, then the saturation to 0xFF |
| Uq44.Finish | src/driver/hps_led_patterns.c:63-77 | no contract: the rounds on the scanned fraction, then the synthesis |
| Uq44.EncodeFraction | src/driver/hps_led_patterns.c:45-77 | no contract: what `str2UQ44` returns once its integer loop stopped without saturating |
| Uq44.Encode | src/driver/hps_led_patterns.c:32-78 | no contract: the specification the loop methods are proved equal to: the whole of `str2UQ44`. Uq44Laws and Uq44Findings state what it computes |
| Uq44.ScanFracStops | src/driver/hps_led_patterns.c:48-58 | the fraction loop keeps what it holds at the buffer's end, at a newline or NUL, and when either the numerator or `one` would wrap |
| Uq44.BinarizeBound | src/driver/hps_led_patterns.c:63-70 | the four doubling rounds leave a value below 16, whatever the fraction and `one` |
| Uq44.IntegerLoop | src/driver/hps_led_patterns.c:39-44 | the integer loop, with the wrapped 32-bit product and its "value went down" check, computes the integer scan; a decrease is the early `return U8_MAX` |
| Uq44.FractionLoop | src/driver/hps_led_patterns.c:45-58 | the fraction loop, starting one past the separator, computes the fraction scan with its two wrap checks |
| Uq44.BinaryLoop | src/driver/hps_led_patterns.c:63-70 | the four rounds of double, compare and subtract compute the binary fraction, with 32-bit doubling |
| Uq44.EncodeOf | src/driver/hps_led_patterns.c:32-78 | the value returned is the synthesis of the integer part with the binary fraction of what the fraction loop accumulated |
| Uq44.Str2UQ44 | src/driver/hps_led_patterns.c:32-78 | the whole conversion of `size` bytes returns the encoding of the buffer, with the overflow checks and saturation as written |
| Uq44.ShiftMask | src/driver/hps_led_patterns.c:238-239 | `b >> 4` and `b & 0x0F` are the quotient and the remainder by 16 |
| Uq44.Decode | src/driver/hps_led_patterns.c:238-239 | the integer part is below 16; the fraction is a multiple of 625 of at most 9375; sixteen times the first plus the sixteenths in the second give back the byte |
| Uq44.RateText | src/driver/hps_led_patterns.c:241 | the `%u.%04u` rendering is six or seven bytes long, with the point five bytes from the end |
| Uq44Laws.BinarizeFloor | src/driver/hps_led_patterns.c:63-70 | from a proper fraction with `one` at most 2^31, each remaining round shifts in one bit of the floor of the scaled fraction |
| Uq44Laws.BinarizeTruncates | src/driver/hps_led_patterns.c:63-70 | the four rounds give floor(16 * fpart / one): truncation, no rounding |
| Uq44Laws.ScanIntPrefix | src/driver/hps_led_patterns.c:39-44 | while the digits read so far denote less than 2^32, the integer loop holds exactly their value |
| Uq44Laws.IntegerPart | src/driver/hps_led_patterns.c:39-44 | a digit string below 2^32, ended by the buffer's end, a newline or a '.', is read as its value, and the loop stops right after it |
| Uq44Laws.SaturatedScanIgnoresRest | src/driver/hps_led_patterns.c:42 | once the running value has decreased, no byte after that point changes the outcome |
| Uq44Laws.SaturationDiscardsRest | src/driver/hps_led_patterns.c:42 | a decrease in the running integer value returns 0xFF whatever follows in the buffer |
| Uq44Laws.RunBound | src/driver/hps_led_patterns.c:48-58 | a run of digits read index by index is worth less than ten to its length |
| Uq44Laws.RunValueIsValue | src/driver/hps_led_patterns.c:48-58 | read index by index from its place in the buffer, a digit string has its decimal value |
| Uq44Laws.ScanFracPrefix | src/driver/hps_led_patterns.c:48-58 | over at most nine fraction digits neither product wraps, and the loop holds the run's value over ten to the run's length |
| Uq44Laws.FractionPart | src/driver/hps_led_patterns.c:48-58 | at most nine digits ended by the buffer's end, a newline or NUL accumulate to their exact value over 10^(number of digits) |
| Uq44Laws.SynthesizeSmall | src/driver/hps_led_patterns.c:71-77 | an integer part below 16 and a binary fraction below 16 combine to 16 * ipart + frac, which fits in the byte |
| Uq44Laws.SynthesizeLarge | src/driver/hps_led_patterns.c:71-77 | an integer part from 16 up to 2^28 - 1 saturates to 0xFF |
| Uq44Laws.DecimalRounds | src/driver/hps_led_patterns.c:63-77 | with an integer part below 16, the rounds and the synthesis give 16 * ipart + floor(16 * numer / denom) |
| Uq44Laws.DecimalScans | src/driver/hps_led_patterns.c:39-58 | for text `whole` `.` `frac` with at most nine fraction digits, the integer loop gives whole's value, and the fraction loop gives frac's value over 10^|frac| |
| Uq44Laws.DecimalSynthesis | src/driver/hps_led_patterns.c:32-78 | the encoding of `whole.frac` is the synthesis of whole's value with the rounds on frac's value and its power of ten |
| Uq44Laws.DecimalEncoding | src/driver/hps_led_patterns.c:32-78 | a decimal below 16 with at most nine fraction digits encodes to floor(16 * its value): 16 * whole + floor(16 * frac / 10^|frac|) |
| Uq44Laws.WholeNumber | src/driver/hps_led_patterns.c:39-77 | a digit string below 2^32 with no separator encodes as its value with a zero fraction |
| Uq44Laws.IntegerEncoding | src/driver/hps_led_patterns.c:39-77 | a whole number below 16 encodes as sixteen times itself |
| Uq44Laws.LargeIntegerSaturates | src/driver/hps_led_patterns.c:71-77 | an integer part from 16 up to 2^28 - 1 encodes as 0xFF, whatever follows the separator |
| Uq44Laws.SixteenthsBack | src/driver/hps_led_patterns.c:239 | the four-digit fraction `base_rate_show` prints is worth exactly the byte's low four bits in sixteenths |
| Uq44Laws.RateTextRoundTrip | src/driver/hps_led_patterns.c:236-241 | the text `base_rate_show` prints for any byte encodes back to that byte through `str2UQ44`, with or without a trailing newline |
| Uq44Laws.RateTextExample | src/driver/hps_led_patterns.c:238-241 | 0x57 renders as "5.4375" |
| Uq44Laws.ZeroEncoding | src/driver/hps_led_patterns.c:32-78 | "0" encodes as 0x00 |
| Uq44Laws.MaxRateEncoding | src/driver/hps_led_patterns.c:32-78 | "15.9375" encodes as 0xFF |
| Uq44Laws.NulInIntegerPart | src/driver/hps_led_patterns.c:39 | the integer loop does not stop at NUL: "1" encodes as 0x10, but "1" followed by a NUL byte saturates to 0xFF |
| Uq44Findings.SaturatingSynthesize | src/driver/hps_led_patterns.c:71-77 | no contract: the corrected synthesis, which saturates on 16 * ipart + frac without wrapping |
| Uq44Findings.ScanFracChecked | src/driver/hps_led_patterns.c:48-58 | no contract: the corrected fraction loop, which stops once `one` is 10^9 so `one * 10` can never wrap |
| Uq44Findings.EncodeCorrected | src/driver/hps_led_patterns.c:32-78 | no contract: `str2UQ44` with both corrections, which the Uq44Findings lemmas characterise |
| Uq44Findings.CorrectedOf | src/driver/hps_led_patterns.c:32-78 | the corrected encoder is the same integer scan, then the checked fraction scan, the same rounds, and a synthesis that saturates before it shifts |
| Uq44Findings.ShiftWrapsToZero | src/driver/hps_led_patterns.c:71 | as written, "268435456" (2^28) encodes as 0x00, because `ipart << 4` wraps |
| Uq44Findings.SaturatingAgrees | src/driver/hps_led_patterns.c:71-77 | the corrected synthesis agrees with the written one wherever `ipart << 4` does not wrap |
| Uq44Findings.CorrectedLargeSaturates | src/driver/hps_led_patterns.c:71-77 | corrected, every integer part from 16 up to 2^32 - 1 saturates to 0xFF |
| Uq44Findings.WrappedRounds | src/driver/hps_led_patterns.c:63-70 | the rounds on 10^9 over the wrapped `one` 1410065408 give 0x0B |
| Uq44Findings.TenDigitsFirstNine | src/driver/hps_led_patterns.c:48-58 | the nine digits "100000000" of "0.1000000000" bring the fraction loop to 10^8 over 10^9 |
| Uq44Findings.TenDigitsLastOne | src/driver/hps_led_patterns.c:53-57 | the tenth digit is accepted, because the wrapped product 1410065408 is not below 10^9, so `one` wraps |
| Uq44Findings.TenthDigitWraps | src/driver/hps_led_patterns.c:48-77 | as written, "0.1000000000" encodes as 0x0B instead of 0x01 |
| Uq44Findings.CheckedStep | src/driver/hps_led_patterns.c:48-58 | one digit whose products fit moves the checked fraction loop on by one index |
| Uq44Findings.CheckedStops | src/driver/hps_led_patterns.c:48-58 | the checked fraction loop keeps what it holds at the buffer's end, at a newline or NUL, and once `one` is 10^9 |
| Uq44Findings.CheckedRunStep | src/driver/hps_led_patterns.c:48-58 | one more digit of a run of at most nine carries the checked loop from the run's prefix to the run |
| Uq44Findings.CheckedPrefix | src/driver/hps_led_patterns.c:48-58 | over at most nine digits, the checked loop holds the run's value over ten to the run's length |
| Uq44Findings.CheckedFractionPart | src/driver/hps_led_patterns.c:48-58 | corrected, at most nine digits accumulate to their exact value; past the ninth digit the rest is ignored |
| Uq44Findings.CheckedScans | src/driver/hps_led_patterns.c:39-58 | corrected, text `whole.frac` scans to whole's value and frac's value over 10^|frac| |
| Uq44Findings.CorrectedRounds | src/driver/hps_led_patterns.c:63-77 | corrected, with an integer part below 16 the result is 16 * ipart + floor(16 * numer / denom) |
| Uq44Findings.CorrectedDecimalEncoding | src/driver/hps_led_patterns.c:32-78 | corrected, a decimal below 16 encodes to floor(16 * its value truncated to nine fraction digits), however many digits follow |
| Uq44Findings.TenDigitsParts | src/driver/hps_led_patterns.c:48-58 | "0.1000000000" is the whole "0", a point, the nine digits "100000000", then one more "0" |
| Uq44Findings.CorrectedTenthDigit | src/driver/hps_led_patterns.c:48-77 | corrected, "0.1000000000" encodes as 0x01 |
| RegisterWindow.Admit | src/driver/hps_led_patterns.c:323-343 | an access is admitted exactly when the offset is in range, aligned and the count non-zero, and it then names the slot at that offset |
| RegisterWindow.Outcome | src/driver/hps_led_patterns.c:322-358 | the value returned, by the order of the checks: -EINVAL exactly for a negative offset; 0 past the end, even unaligned, or for an empty request; otherwise -EFAULT for an unaligned offset or a copy that moved nothing; 4 exactly for an admitted access whose copy moved something |
| RegisterWindow.ControlShown | src/driver/hps_led_patterns.c:121-123 | the register converted to C's `bool`: at most 1, and 1 exactly when the word is non-zero |
| RegisterWindow.LedRegShown | src/driver/hps_led_patterns.c:178-180 | the register truncated to `u8`: congruent to the word mod 256, and the word itself when it fits |
| RegisterWindow.BaseRateShown | src/driver/hps_led_patterns.c:236-241 | the byte printed after the tab is the register truncated to `u8` |
| RegisterWindow.BaseRateReadsBack | src/driver/hps_led_patterns.c:236-265 | what `base_rate_show` prints before the tab, parsed by `str2UQ44` as `base_rate_store` does, gives back the register's low byte |
| RegisterWindow.CharDevice.constructor | src/driver/hps_led_patterns.c:306-312 | a device whose registers hold the given words, opened at offset 0, unlocked |
| RegisterWindow.CharDevice.Lock | src/driver/hps_led_patterns.c:414 | takes the lock and touches nothing else |
| RegisterWindow.CharDevice.Unlock | src/driver/hps_led_patterns.c:433-434 | releases the lock and touches nothing else |
| RegisterWindow.CharDevice.CopyFromUser | src/driver/hps_led_patterns.c:416-417 | the copy fails exactly when none of the word's four bytes was copied |
| RegisterWindow.CharDevice.Store | src/driver/hps_led_patterns.c:425 | `iowrite32` replaces that one word and leaves the other three as they were |
| RegisterWindow.CharDevice.Read | src/driver/hps_led_patterns.c:306-359 | returns the outcome of the checks; only a successful read moves the offset, and only by 4; the word handed out is the register at the old offset; no register and not the lock changes |
| RegisterWindow.CharDevice.Write | src/driver/hps_led_patterns.c:375-436 | returns the outcome of the checks; the lock is free afterwards on every path, the copy-failure `goto unlock` included; only a successful write stores the word, in the slot at the old offset alone, and moves the offset by 4 |
| RegisterWindow.CharDevice.Seek | src/driver/hps_led_patterns.c:457 | `default_llseek` with SEEK_SET sets the offset and changes nothing else |
| RegisterWindow.CharDevice.ShowControl | src/driver/hps_led_patterns.c:121 | prints the control register's truth value |
| RegisterWindow.CharDevice.ShowLedReg | src/driver/hps_led_patterns.c:178 | prints the LED register's low byte |
| RegisterWindow.CharDevice.StoreBaseRate | src/driver/hps_led_patterns.c:258-270 | writes the UQ4.4 encoding of the buffer to the base-rate register alone, without the lock, and returns the buffer's size |
| RegisterWindow.CharDevice.ShowBaseRate | src/driver/hps_led_patterns.c:236-241 | prints the decode of the base-rate register's low byte |
| RegisterWindow.ReadSweep | src/driver/hps_led_patterns_test.c:24-34 | four 4-byte reads from offset 0 return the four words in order and stop at SPAN, where a fifth read returns 0 |
| RegisterWindow.BaseRateRewrite | src/driver/hps_led_patterns.c:231-270 | showing the base rate and storing the shown rate back leaves the base-rate register holding its own low byte, and no other register changes |
| RegisterWindow.WriteReadBack | src/driver/hps_led_patterns_test.c:45-76 | a word written at an aligned in-range offset reads back from there, and no other word changes |
| PatternStore.LoopCaseIsNoLoop | src/myLEDpatterns.c:84 | `'l' \| 'n'` is the key 'n' (0x6E), not 'l' |
| PatternStore.Dispatch | src/myLEDpatterns.c:65-133 | key 'n' alone reaches the loop-override case; exactly the keys outside h, V, u, v, n, p, f fall to the default |
| PatternStore.PairsFrom | src/myLEDpatterns.c:101-111 | takes argument pairs in order while there is room, never a trailing unpaired argument, stopping only when full or out of pairs; each pattern is truncated to 8 bits and each delay to 32 bits |
| PatternStore.FileSteps | src/myLEDpatterns.c:150-160 | one step per line, in file order, until the room is used or the lines end; each step value is truncated to 8 bits |
| PatternStore.FlagsAfter | src/myLEDpatterns.c:84-125 | the override case sets the override; once overridden, the loop flag only changes through it; without an override 'p' sets looping and 'f' clears it |
| PatternStore.Status | src/myLEDpatterns.c:91-135 | returns 1 exactly for 'p' after a file or 'f' after steps; ARGP_ERR_UNKNOWN exactly for an unknown key; otherwise 0 |
| PatternStore.NoLoopWins | src/myLEDpatterns.c:84-125 | -n before or after -p or -f leaves looping off |
| PatternStore.LoopOptionRefused | src/myLEDpatterns.c:84-133 | key 'l' reaches the default case and is refused with ARGP_ERR_UNKNOWN |
| PatternStore.IntendedDispatch | src/myLEDpatterns.c:84-88 | the intended dispatch: 'l' or 'n' reaches the loop-override case, and every other key is dispatched as written |
| PatternStore.IntendedLoopOptions | src/myLEDpatterns.c:84-125 | with the intended dispatch, -l sets looping and -n clears it, and each wins over -p or -f in either order |
| PatternStore.Arguments.constructor | src/myLEDpatterns.c:190-194 | the zero-initialised `params`: no steps, no file, not verbose, no loop and no override |
| PatternStore.Arguments.Append | src/myLEDpatterns.c:107-110 | writes one step at `num_steps`, counts it, and changes no flag |
| PatternStore.Arguments.TakePairs | src/myLEDpatterns.c:100-113 | appends the argument pairs in order up to 32 steps, and returns the index of the first argument not consumed |
| PatternStore.Arguments.ParseOpt | src/myLEDpatterns.c:63-136 | returns the status of the key. 'p' appends the pairs and moves `next` past them; otherwise neither the steps nor `next` change. The loop flags follow the rules above; 'v' sets verbose; 'f' records the file. A file and steps never both enter the store |
| PatternStore.Arguments.LoadPatternFile | src/myLEDpatterns.c:140-165 | returns 1 with nothing added when the file does not open; otherwise returns 0 and appends one step per line in order, up to 32 steps |
| Playback.DelayToTimespec | src/myLEDpatterns.c:228-229 | tv_nsec is a whole number of milliseconds below 10^9, and tv_sec * 1000 + tv_nsec / 10^6 is the delay |
| Playback.Show | src/myLEDpatterns.c:234-235 | a step shows as two events; that they are the pattern write and then the sleep for its delay is stated by PlaysAt |
| Playback.Plays | src/myLEDpatterns.c:225-249 | the first `count` passes of the display loop give two events each |
| Playback.Rounds | src/myLEDpatterns.c:225-249 | steps are shown until the interrupt is seen, and without looping at most one pass of n steps |
| Playback.PlaybackTrace | src/myLEDpatterns.c:223-252 | a started playback is two events per step shown, plus two; that these two are the override set first and cleared last is stated by OverrideBrackets |
| Playback.PatternsWrittenConcat | src/myLEDpatterns.c:169-173 | the pattern-register writes of two traces in sequence are those of the first, then those of the second |
| Playback.PlaysAt | src/myLEDpatterns.c:228-235 | the k-th pass writes the pattern of step k mod n, then sleeps for that step's delay |
| Playback.PlaysLeaveOverride | src/myLEDpatterns.c:225-249 | the display loop never writes the override register |
| Playback.PlaysWrite | src/myLEDpatterns.c:234 | pass k writes step k mod n's pattern to the pattern register, once per pass |
| Playback.OverrideBrackets | src/myLEDpatterns.c:223-252 | a playback sets the override first and clears it last, after a full pass or an interrupt, and never touches it in between |
| Playback.PlaybackWrites | src/myLEDpatterns.c:220-250 | the values written to the pattern register are stored patterns, in order, cycling, one per step shown |
| Playback.OnePassShowsEachStep | src/myLEDpatterns.c:238-244 | without looping, and with no earlier interrupt, the writes are exactly steps[0..n-1] in order |
| Playback.LoopShowsUntilInterrupt | src/myLEDpatterns.c:238-242 | when looping, the k-th write is steps[k mod n], until the interrupt is seen |
| Playback.DisplayLoop | src/myLEDpatterns.c:220-250 | the display loop, with its wrap-or-break step counter, emits the passes counted by Rounds |
| Playback.Run | src/myLEDpatterns.c:196-256 | the file is loaded when named. Without steps, or when /dev/mem fails to open or map, it returns 1 with no register write. Otherwise it returns 0 with the playback trace. The loop, override, verbose and file settings are unchanged |

## Left out

- Kernel plumbing in the driver is not modelled: probe/remove, `devm_*` allocation and
  `ioremap`, the misc device, the `of_match` table, sysfs attribute groups, module macros and
  `pr_*` logging. It is OS integration, not logic.
- `hps_led_control_store` and `led_reg_store` are not modelled. Their parsing is `kstrtobool` /
  `kstrtou8`, which is kernel library code.
- `base_rate_store` is `CharDevice.StoreBaseRate`, and `BaseRateRewrite` stores back only the rate
  text before the tab. Writing back the whole line `base_rate_show` prints, with the tab and
  `0x%X`, is not modelled.
- The `show` functions are modelled up to the values they print. `scnprintf`'s formatting is
  modelled only for `base_rate_show`'s `%u.%04u`, in `RateText`; the tab, the `0x%X` and the
  trailing newline are not.
- Concurrency is not modelled. The mutex is a flag held by the single caller, so `Lock` requires
  it free.
- `copy_to_user`/`copy_from_user` are reduced to the number of bytes they leave uncopied; the
  bytes of a partial copy are not modelled.
- `ioread32` and `iowrite32` are reduced to the register array. The hardware side of the
  registers, which could change them between accesses, is not modelled.
- `default_llseek` is modelled only for the SEEK_SET calls the test program makes.
- argp itself is not modelled: option scanning, `argp_parse` and its return value, which `main`
  ignores. Neither are the 'h', 'V' and 'u' cases, which print help, version or usage and may
  exit; `ParseOpt` requires the key not to be one of these.
- `strtol`, `fopen`, `fgets`, `sscanf` and `fclose` are not modelled. Arguments arrive as the
  integers `strtol` would return. After a successful `fopen`, the file arrives as the value pairs
  `sscanf` leaves for each line, so the split of long lines at `LINE_LEN` is not modelled.
- `DelayToTimespec` takes the delay as `unsigned int`. The `%d` conversion that stores a signed
  value into it is part of `sscanf`.
- The verbose `printf` in the display loop is not modelled; it has no effect on the trace.
- The SIGINT handler is replaced by the number of loop-top checks made before the flag is seen,
  so a looping playback is finite.
- `nanosleep` is recorded as an event and not executed.
- `open("/dev/mem")`, `sysconf` and `mmap` are reduced to two booleans; `close` is not modelled.
- `write_mem` is a printing stub in the source; every call is recorded as a trace event.
- devmem2/mydevmem.c is not part of this model. It maps and dereferences arbitrary physical
  memory, with no logic to verify.
- `Uq44.Str2UQ44` and `PatternStore.Arguments.ParseOpt` model the code as written, including the
  wrap-arounds and the unreachable 'l' key described under Findings. The corrected definitions
  are separate members and are not used by the methods.
- Uq44.Str2UQ44: the buffer is read as unsigned bytes, as with `-funsigned-char`. On a target
  where `char` is signed, bytes above 0x7F would give different digit values.

## Findings

| source | as written | input that shows it | evidently intended | confidence | as-written member | corrected member |
|---|---|---|---|---|---|---|
| src/driver/hps_led_patterns.c:71-77 | `result += ipart << 4` wraps modulo 2^32 before the saturation test, so large integer parts lose their high bits | "268435456" (2^28) encodes as 0x00 | every integer part of 16 or more saturates to 0xFF | not executed | Uq44Findings.ShiftWrapsToZero | Uq44Findings.CorrectedLargeSaturates |
| src/driver/hps_led_patterns.c:53-57 | the test `otemp < one` misses the wrap of `one * 10` at the tenth fraction digit (10^10 mod 2^32 = 1410065408 is above 10^9), so the fraction is computed over a wrapped denominator | "0.1000000000" encodes as 0x0B | digits past the ninth are ignored, and "0.1000000000" encodes as 0x01, the same as "0.1" | not executed | Uq44Findings.TenthDigitWraps | Uq44Findings.CorrectedTenthDigit |
| src/myLEDpatterns.c:84 | `case 'l'\|'n':` is the single label 0x6E, which is 'n', so key 'l' falls to the default case | `-l` (key 'l') is refused with ARGP_ERR_UNKNOWN | -l overrides the loop flag to true, as -n does to false | not executed | PatternStore.LoopOptionRefused | PatternStore.IntendedLoopOptions |
