# Morse-code LED driver: symbol table and transmission sequencer

A Dafny model of the core of a Linux character driver that blinks the USR0 LED
of a BeagleBone Black in Morse code. A message written to the device is copied
into a 256-byte static buffer. The kernel timer callback then walks that buffer
one step per call. Each call either emits a dot or dash pulse, emits a gap, or
ends the transmission.

The model has four modules:

- `McodeTable` (`mcode_table.dfy`, from `McodeMod.h`). It holds the timing
  constants and the 40-entry `morse_code` table exactly as written. Index 38,
  the period, is `"-.-.-."`. `SymbolIndex` is the branch chain of
  `mcodestring`, and `McodeString` is the table entry that chain selects.
  The lemmas cover:
  - the index is in bounds for every `int`;
  - what the table holds;
  - case folding, the digit entries and the punctuation entries;
  - the fallback to the empty symbol.
- `Transmitter` (`transmitter.dfy`, from `mc.c`). It defines:
  - `State`, the value of the driver's globals;
  - `Next`, one run of `mc_tx_timer_callback`, with its four branches tested
    in the driver's order;
  - `Trace` and `Settle`, what repeated callbacks emit and where they stop;
  - `Written`, the state after `dev_write`;
  - `StrLen` for `strlen`.

  It also gives a separate, character-by-character description of the
  timeline (`SymbolPulses`, `CharTimeline`, `MessageTimeline`,
  `FinalIntercode`).
- `TransmitterProofs` (`transmitter_proofs.dfy`). It proves what each branch
  does, that two pulses are never adjacent, and that `Trace` equals the
  character-by-character timeline from any state the invariant admits. It
  also covers the empty message, unterminated writes, gap-only characters and
  the timeline of `"sos"`.
- `McDriver` (`driver.dfy`, from `mc.c`). Class `Driver` keeps the globals as
  fields and the message buffer as an `array`:
  - `Write` is `dev_write`;
  - `Step` is the callback, one method per branch (`Complete`,
    `NextCharacter`, `EndPulse`, `Pulse`);
  - `Run` plays the kernel timer, calling `Step` until it reports completion;
  - `Send` is a write followed by a run.

  Each method is proved against the functions above.

The LED is one boolean. Writing "none" or "heartbeat" to the LED trigger file is
one boolean, `heartbeat`. A callback's timer request is the returned `Action`:
`Done` means the timer is not re-armed, and `Rearm(ledOn, delayMs)` means it is
re-armed with that delay.

The C code behaves as follows, in places where a reader might expect
otherwise; the model follows the code:

- The period's symbol is `"-.-.-."`, not `".-.-.-"`.
- The "symbol exhausted" test comes before the intercode test. So after a
  character's last pulse, the 2000 ms gap is taken with the intercode flag
  still set. The next character with a symbol then starts with an extra 250 ms
  OFF step.
- A transmission ends with a 2000 ms OFF step before completion, not directly
  after the last pulse.
- Completion does not clear the intercode flag. A later transmission whose
  first character has a symbol starts with a 250 ms OFF step when the previous
  message had any coded character (`FirstStepOfCodedStart`, `FinalIntercode`).
  A later message that starts with an uncoded character, such as a space,
  starts with the 2000 ms gap, and an empty one completes at once.
- `dev_write` reports no error. It never refuses a write because a
  transmission is still running, nor one longer than the 256-byte buffer; it
  always returns the byte count. The model has no such error results.
- A write is not cut at its declared length. The message runs to the first
  NUL in the whole buffer, so a write without a terminator takes in stale bytes
  from an earlier, longer write (`UnterminatedWrite`).

## Model

| member | source | states |
|---|---|---|
| `McodeTable.SymbolIndex` | McodeMod.h:28-53 | for every integer code, negatives and codes above 127 included, the index selected is within the 40-entry table |
| `McodeTable.McodeString` | McodeMod.h:22-53 | the symbol returned for any code is a dot/dash string of at most six characters, and it is empty exactly when the code is not a letter, digit, comma, period or question mark |
| `McodeTable.TableIsWellFormed` | McodeMod.h:22-26 | the table has 40 entries, each over {'.','-'} and at most six long, and only entry 0 is empty |
| `McodeTable.LetterCaseFolding` | McodeMod.h:34-39 | an upper-case letter and the same letter in lower case (code + 32) get the same entry, `c - 64`, which lies in 1..26 |
| `McodeTable.DigitEntries` | McodeMod.h:44-45 | digit d gets table entry 27 + d |
| `McodeTable.PunctuationEntries` | McodeMod.h:40-49 | ',' gives entry 37 "--..--", '.' gives entry 38 "-.-.-.", '?' gives entry 39 "..--.." |
| `McodeTable.UncodedFallback` | McodeMod.h:32-51 | every code that is not a letter, digit, comma, period or question mark selects index 0, the empty string |
| `McodeTable.SampleSymbols` | McodeMod.h:22-26 | 's' and 'S' give "...", 'o' gives "---", 'e' gives ".", '0' gives "-----", '9' gives "----.", space and NUL give "" |
| `McodeTable.HighBytesHaveNoSymbol` | McodeMod.h:32-33 | a byte of 128..255 gets the empty symbol, whether it is read as unsigned or as a negative signed char |
| `McodeTable.TimingRatios` | McodeMod.h:14-20 | a dash is three dots (1500 = 3 × 500); 250 < 500 < 1500 < 2000 |
| `Transmitter.StrLen` | mc.c:217 | the length is the index of the first NUL: that byte is 0 and no earlier byte is |
| `Transmitter.PulseDelay` | mc.c:166-176 | a dot keeps the LED on for exactly the dot time and a dash for exactly the dash time; either pulse is longer than the 250 ms gap and shorter than the 2000 ms gap |
| `Transmitter.Next` | mc.c:138-181 | one callback keeps the invariant (0 ≤ mcode_itr ≤ mcodelength, 0 ≤ message_itr ≤ mlength < 256, and mcodelength is the current symbol's length); it completes exactly when message_itr ≥ mlength; every other step lowers (mlength − message_itr, mcodelength − mcode_itr, intercode) lexicographically |
| `Transmitter.Trace` | mc.c:138-181 | repeated callbacks always reach completion: the trace ends in exactly one `Done`, and every earlier action re-arms the timer |
| `Transmitter.Settle` | mc.c:140-149 | the completing callback leaves the invariant, zero cursors and length, the LED back under its heartbeat trigger, and the buffer unchanged |
| `Transmitter.Written` | mc.c:213-223 | after the copy, the buffer is the written bytes followed by the old bytes beyond them; mlength is the index of the first NUL; the cursors are idle and the invariant holds |
| `Transmitter.SymbolPulses` | mc.c:160-180 | a symbol of n pulses takes 2n − 1 steps, or 2n when it follows an earlier pulse; every step re-arms the timer |
| `Transmitter.MessageTimeline` | mc.c:150-180 | a message's timeline has at least one step per character, and every step re-arms the timer |
| `Transmitter.FinalIntercode` | mc.c:140-180 | after a message the intercode flag is set exactly when it was set before or some character of the message has a symbol; completion never clears it |
| `TransmitterProofs.CompletionStep` | mc.c:140-149 | when message_itr > mlength − 1 the timer is not re-armed; message_itr, mcode_itr, mlength and mcodelength become 0; intercode, the LED and the buffer are unchanged |
| `TransmitterProofs.InterletterStep` | mc.c:150-158 | when the symbol is exhausted the LED is cleared for 2000 ms; mcode_itr is set to 0 and message_itr goes up by one (staying ≤ mlength); mcodelength becomes the next character's symbol length; intercode is unchanged |
| `TransmitterProofs.IntercodeStep` | mc.c:160-164 | with intercode set the LED is cleared for 250 ms and intercode is dropped; the cursors are unchanged |
| `TransmitterProofs.PulseStep` | mc.c:165-180 | otherwise the symbol character is '.' (LED on, 500 ms) or '-' (LED on, 1500 ms), so the switch always re-arms the timer; intercode is set, mcode_itr goes up by one, and nothing else changes |
| `TransmitterProofs.StepSetsLed` | mc.c:150-180 | after every re-arming step the LED holds the level that step asked for |
| `TransmitterProofs.NoAdjacentPulses` | mc.c:150-180 | a pulse is always followed by a re-arming step that turns the LED off, so two pulses are never adjacent |
| `TransmitterProofs.TraceStep` | mc.c:138-181 | one callback's action is the first action of the trace, and the rest of the trace comes from the state it leaves |
| `TransmitterProofs.TraceFrom` | mc.c:138-181 | from any state the invariant admits, the callbacks give exactly the rest of the current symbol, its 2000 ms gap and the timelines of the remaining characters, then completion |
| `TransmitterProofs.SettleFrom` | mc.c:138-181 | from any state the invariant admits, completion leaves the buffer as it was, the cursors and lengths zeroed, the LED off if any step ran, the heartbeat trigger back, and intercode as the rest of the message sets it |
| `TransmitterProofs.WriteThenRun` | mc.c:213-223 | after `dev_write` from an idle state, the callbacks emit the character-by-character timeline of the bytes before the first NUL (starting from the previous intercode flag), then complete idle with the LED off and under heartbeat |
| `TransmitterProofs.EmptyMessage` | mc.c:216-218 | when the first byte after the copy is NUL, mlength is 0 and the first callback completes with no pulse |
| `TransmitterProofs.UnterminatedWrite` | mc.c:216-217 | a write with no NUL ends at the first NUL among the older bytes after it: the message is the new bytes followed by that stale tail; onto a zeroed buffer it is exactly the bytes written |
| `TransmitterProofs.UncodedCharIsGapOnly` | mc.c:150-158 | a character with no symbol (space, say) is a single 2000 ms OFF step and leaves intercode alone |
| `TransmitterProofs.CodedCharEndsWithGap` | mc.c:150-180 | a character with a symbol ends with an ON pulse followed by the 2000 ms OFF step, and sets intercode |
| `TransmitterProofs.FirstStepOfCodedStart` | mc.c:160-180 | a message whose first character has a symbol starts with a 250 ms OFF step if intercode was left set, and with that character's first pulse otherwise |
| `TransmitterProofs.ThreePulses` | mc.c:160-180 | a symbol of three equal pulses is those pulses separated by 250 ms OFF steps, with one more 250 ms OFF step in front when a pulse came before |
| `TransmitterProofs.SosCharacters` | mc.c:150-180 | 's' alone is three 500 ms pulses and the 2000 ms gap; after a pulse, 's' and 'o' (three 1500 ms pulses) each start with an extra 250 ms OFF step |
| `TransmitterProofs.SosTimeline` | mc.c:138-181 | "sos" from a clear intercode flag is ON500 OFF250 ON500 OFF250 ON500 OFF2000, OFF250 ON1500 OFF250 ON1500 OFF250 ON1500 OFF2000, OFF250 ON500 OFF250 ON500 OFF250 ON500 OFF2000 |
| `McDriver.Driver.constructor` | mc.c:85-89 | at module load the buffer is zeroed, all counters are 0, intercode is clear, and the LED is off under its heartbeat trigger |
| `McDriver.Driver.Write` | mc.c:213-223 | copies the bytes over the start of the buffer and leaves the rest untouched; returns the byte count; the new state is `Written` of the old one |
| `McDriver.Driver.Step` | mc.c:138-181 | the action and the new fields are exactly `Next` of the old fields; the buffer is untouched |
| `McDriver.Driver.Complete` | mc.c:140-149 | the completion branch: the timer is not re-armed and the new fields are `Next` of the old ones |
| `McDriver.Driver.NextCharacter` | mc.c:150-158 | the inter-letter branch: OFF for 2000 ms, and the new fields are `Next` of the old ones |
| `McDriver.Driver.EndPulse` | mc.c:160-164 | the intra-symbol gap branch: OFF for 250 ms, and the new fields are `Next` of the old ones |
| `McDriver.Driver.Pulse` | mc.c:165-180 | the pulse branch: ON for the dot or dash time, and the new fields are `Next` of the old ones |
| `McDriver.Driver.Run` | mc.c:150-180 | the actions collected until completion are `Trace` of the starting state, and the fields end as `Settle` of it |
| `McDriver.Driver.Send` | mc.c:213-223 | a write and then a run give the character-by-character timeline of the message up to its first NUL, then `Done`; it ends idle with the LED off and under heartbeat, and intercode as the message leaves it |

## Left out

- Writing to the LED trigger file (`file_open`, `file_write`, `set_trigger_none`, `set_trigger_heartbeat`). This is kernel file I/O. The model keeps only its effect, the `heartbeat` flag. Switching the trigger to "none" turns the LED off.
- The GPIO register mapping and the volatile set/clear pointers. This is hardware. The LED is the boolean `led`.
- The kernel timer API (`timer_setup`, `mod_timer`, `jiffies`, `del_timer`, `initialize_timer`). Each callback returns the delay it asks for. `Run` stands for the timer firing again after each delay, starting with the immediate expiry that `dev_write` arms.
- The mutex and the open/release handlers. They exist for concurrency, which is not modelled.
- McDriver.Driver.Write, McDriver.Driver.Send, Transmitter.Written, TransmitterProofs.WriteThenRun, TransmitterProofs.EmptyMessage, TransmitterProofs.UnterminatedWrite: require that no transmission is in progress (both cursors 0, as load and completion leave them). The code does not check this, and the mutex does not enforce it. A write during a transmission breaks the cursor invariant, and that path is not modelled. What can then happen: if `message_itr` is at or past the new `mlength`, the next callback just completes, so the new text is never sent although `dev_write` still returns its length (mc.c:140, 222). If the symbol cursor lands exactly on the terminating NUL of a symbol, the switch matches no case, the timer is not re-armed, and the transmission stalls (mc.c:166-177).
- McDriver.Driver.Write: requires a write of at most 256 bytes, and a NUL somewhere in the resulting buffer. Without these, `copy_from_user` overruns the buffer or `strlen` reads past it. Both are undefined behaviour in the code, so they are preconditions, not error results.
- The return value of `copy_from_user` (the count of bytes not copied) is ignored by the code. The model assumes the copy succeeds.
- The `default` case of the switch in the callback. The table holds only dots and dashes, so it cannot happen; `PulseStep` proves this.
- Module registration and teardown (`mc_init`, `mc_exit`).
- The unused floating-point constants `DOT_TIME`, `DASH_TIME`, `INTERCODE_TIME` and `INTERLETTER_TIME`. The model uses the millisecond integers.
- `tester.c` is not part of this model. It is a user-space program that writes "hello world" (11 bytes, no terminator) and closes the device. `UnterminatedWrite` covers that write onto a zeroed buffer.
- C `int` width. The counters stay within 0..256, so no wrap-around can occur, and the model uses unbounded integers.
- Message bytes are unsigned (0..255). `HighBytesHaveNoSymbol` shows that the signedness of `char` does not change any symbol.
