# Serial-console command interpreter, modelled in Dafny

This project models the command interpreter of a FreeRTOS-based control firmware
(`configuration/command.cpp`). A line typed on the serial console is matched against an
ordered registry of command definitions. Each definition has a name, a maximum argument
count, a callback and a help string. The first definition whose name is a literal prefix
of the line is chosen. The line is split into whitespace tokens, each cut to
`COMMAND_ARGUMENT_LENGTH` (32) characters, and the chosen callback runs once with them and
with the caller's output buffer. Its result code is returned. The built-in `help` command
copies every registered help string into the output buffer. Handlers use a utility that
turns `--key value` tokens into key/value pairs.

Modules:

- `Types` (types.dfy): result codes (`Error`), `Definition`, `Pair`, `CString` (a string
  without NUL) and the constant `ArgumentLength` = 32.
- `Tokenizer` (tokenizer.dfy): tokens defined as maximal runs of characters other than
  space, tab, CR and LF. `NextToken` is one strtok_r step. `Tokenize` is the
  dispatcher's loop that fills the scratch array in place.
- `Pairs` (pairs.dfy): `commandArgumentsToPairs` as written (`ArgumentsToPairs`), a
  corrected version (`ArgumentsToPairsBounded`), `PairsOf`, a reference definition
  independent of the loop, and `AsWritten`, the slots the loop writes and the count it
  returns for every array length, including those it overruns.
- `HelpOutput` (help_output.dfy): what the help handler writes. It covers the buffer
  guard as the code writes it and the guard the code evidently intends.
- `Command` (command.dfy): the `Interpreter` class. Its field `commands` is the registry
  `_commands`. The class has `Register`, `Lookup` (the registry scan), `Help` (the
  as-written `_helpHandler`), `HelpBounded` (the corrected one) and `ProcessInput`
  (`commandProcessInput`). The module also holds `FirstMatch`, the specification of
  which command a line reaches, and three small client methods.

The output buffer is an `array<char>` whose length is `output_buffer_length`. The pairs
array is an `array<Pair>`, where `None` stands for a NULL key or value.

Points where the code's behaviour is easy to misread, and which the model follows:

- Pair extraction writes `pairs[0]` before its loop, even when `pairs_length` is 0, and a
  key that arrives after `pairs_length` keys is written to slot `pairs_length`, one past
  the end. `ArgumentsToPairs` therefore requires a non-empty array and at most
  `pairs.Length` keys. `AsWritten` follows the loop for every array length.
- Help compares each string with the whole capacity minus one, not with the room left
  after the strings already copied. `Help` therefore requires that its writes stay in
  the buffer.
- When help stops with BufferOverflow after copying a string, the copied text is left
  without a NUL terminator.
- Under the in-bounds condition, help succeeds only when all help strings plus the
  terminating NUL fit. Without that condition, the per-string guard can report success
  after writing past the buffer (see Findings).

## Model

| member | source | states |
|---|---|---|
| `Tokenizer.Tokens` | configuration/command.cpp:130-144 | every token is non-empty and free of space, tab, CR and LF |
| `Tokenizer.Truncate` | configuration/command.cpp:137-138 | an over-long token is cut: the result is a prefix of the token, as long as the token but at most 32 characters |
| `Tokenizer.Arguments` | configuration/command.cpp:126-144 | the argument list a handler receives: one entry per token, up to the `limit` (max+1) scratch slots |
| `Tokenizer.NextToken` | configuration/command.cpp:132-135 | one strtok_r step. It returns None exactly when only delimiters remain. Otherwise the span is the next token, and the remaining tokens start right after it |
| `Tokenizer.Tokenize` | configuration/command.cpp:126-144 | the scratch slots receive the first `slots.Length` tokens, in order and truncated. Extra tokens are dropped and unused slots are untouched |
| `Tokenizer.ArgumentsShape` | configuration/command.cpp:137-140 | a handler gets at most max+1 arguments, and fewer only when the line has fewer tokens. Each is a non-empty word of at most 32 characters: the whole token when that has at most 32 characters, otherwise exactly its first 32 characters |
| `Tokenizer.TokensJoinWords` | configuration/command.cpp:132 | splitting words joined by single spaces gives the words back |
| `Tokenizer.ArgumentsOfJoinedWords` | configuration/command.cpp:126-144 | a line of words of at most 32 characters joined by single spaces gives the handler exactly its first `limit` words |
| `Tokenizer.CommandWordStartsWithName` | configuration/command.cpp:116-132 | when a delimiter-free name prefixes the line, token 0 of the line, before truncation, starts with that name |
| `Tokenizer.CommandArgumentStartsWithName` | configuration/command.cpp:116-140 | when a delimiter-free name of at most 32 characters prefixes the line, the handler's argument 0 (the truncated command word) starts with that name |
| `Pairs.IsKey` | configuration/command.cpp:76 | a key token is "--" followed by at least one more character |
| `Pairs.PairsOf` | configuration/command.cpp:71-89 | the reference extraction has exactly one pair per key token, and every pair has a key |
| `Pairs.ValueAfterSnoc` | configuration/command.cpp:87-88 | a value token before any key sets the pending leading value. After a key has been seen, the leading value no longer changes |
| `Pairs.PairsOfSnoc` | configuration/command.cpp:76-88 | a key token opens a new pair whose value is NULL. A value token replaces the value of the last pair, so the last value wins. A value token before any key creates no pair |
| `Pairs.PairsOfAppendAtKey` | configuration/command.cpp:79-85 | a key closes the pairs found before it: nothing after it changes them |
| `Pairs.ArgumentsToPairs` | configuration/command.cpp:63-92 | as written: needs a non-empty array and at most `pairs.Length` keys. It returns the number of key tokens, slots 0..found-1 hold the reference pairs in order, later slots are untouched. With no key, slot 0 has a NULL key and the last leading value |
| `Pairs.ArgumentsToPairsBounded` | configuration/command.cpp:66-89 | corrected: accepts any array and never writes past it. It returns min(keys, capacity) and stores the first pairs of the reference extraction. With no key and a non-empty array, slot 0 has a NULL key and the last leading value |
| `Pairs.PairsLoop` | configuration/command.cpp:71-89 | the loop as written from a given cursor, keyed flag and count: it writes at most one slot per token, and the count grows by at most the number of keys, never by more than the slots written |
| `Pairs.AsWritten` | configuration/command.cpp:66-89 | the slots lines 66-89 write, in order, and the count returned, for every array length: slot 0 is written first, and the count is at most the number of keys |
| `Pairs.AsWrittenInBounds` | configuration/command.cpp:66-89 | the as-written loop, for a non-empty array with at most one key per slot, writes only slots below `pairs_length` and returns the number of keys |
| `Pairs.AsWrittenOverrun` | configuration/command.cpp:66-89 | with more keys than slots, the as-written loop bumps `j` to `pairs_length`, writes that slot and returns `pairs_length + 1`. With `pairs_length` 0, line 66 writes slot 0 |
| `Pairs.AsWrittenSafeExactly` | configuration/command.cpp:66-89 | the as-written loop stays inside the array exactly when the array is non-empty and there are at most `pairs_length` keys |
| `Pairs.OverrunExample` | configuration/command.cpp:66-89 | "--a --b" with one slot: writes slots 0, 0, 1 and returns 2 |
| `Pairs.Examples` | configuration/command.cpp:76-88 | `--a 1 --b 2` gives {a,1},{b,2}. `v1 --a v2` gives {a,v2}. `--a --b` gives {a,NULL},{b,NULL} |
| `HelpOutput.MemCopy` | configuration/command.cpp:204 | memcpy puts the text at the offset and leaves the rest of the buffer as it was |
| `HelpOutput.FitCount` | configuration/command.cpp:197-202 | the help loop passes every string before the first one longer than capacity-1 and stops at that one |
| `HelpOutput.HelpWritten` | configuration/command.cpp:197-210 | what help writes from the start of the buffer: the strings the guard admitted, in order, then at most a NUL |
| `HelpOutput.HelpResult` | configuration/command.cpp:197-210 | help returns BufferOverflow exactly when some help string is longer than capacity-1, and NoError otherwise |
| `HelpOutput.HelpCopyInBounds` | configuration/command.cpp:201-205 | under the in-bounds condition, each string the guard admits is copied inside the buffer |
| `HelpOutput.HelpStopsAt` | configuration/command.cpp:201-202 | the first rejected string gives BufferOverflow, and only the earlier strings have been written, with no terminator |
| `HelpOutput.HelpReachesEnd` | configuration/command.cpp:206-210 | when every string passes the guard, help returns NoError and writes all strings followed by NUL |
| `HelpOutput.HelpSucceedsWhenAllFit` | configuration/command.cpp:197-210 | if the concatenated help text plus NUL fits, help stays in bounds and returns NoError with that text and a NUL |
| `HelpOutput.PerStringGuardOverruns` | configuration/command.cpp:199-208 | if each string fits alone but all together do not, the guard still reports success and the writes leave the buffer |
| `HelpOutput.HelpOverrunExample` | configuration/command.cpp:199-208 | "ab" and "c" in a 3-character buffer: help writes "abc" and a NUL at index 3 |
| `HelpOutput.BoundedFitCount` | configuration/command.cpp:197-202 | corrected guard: the longest prefix of help strings whose concatenation leaves room for the NUL |
| `HelpOutput.BoundedHelpCorrect` | configuration/command.cpp:197-210 | the corrected guard always stays inside the buffer. It succeeds exactly when all help text plus NUL fits, and then writes all of it |
| `HelpOutput.BoundedAgreesWhenAllFit` | configuration/command.cpp:197-210 | when everything fits, the corrected and as-written handlers write the same text |
| `Command.FirstMatch` | configuration/command.cpp:112-116 | the chosen definition is one whose name prefixes the raw input, and no earlier one does. None means no name prefixes the input |
| `Command.RegisterKeepsEarlierMatch` | configuration/command.cpp:171-174 | registering never changes which command an input already reaches. The new definition only catches inputs nothing matched before |
| `Command.EarlierPrefixShadows` | configuration/command.cpp:112-116 | if an earlier name is a prefix of a later name, every input for the later command goes to the earlier one (or to an even earlier match) |
| `Command.HelpIsFound` | configuration/command.cpp:36-44 | with help first in the registry, every input starting with "help" goes to the help command whatever is registered after it |
| `Command.Interpreter.constructor` | configuration/command.cpp:36-44 | the registry starts as exactly the help definition, so help is first |
| `Command.Interpreter.Register` | configuration/command.cpp:171-174 | appends the definition at the end, keeps earlier entries in order (help stays first) and does not check for duplicates |
| `Command.Interpreter.Lookup` | configuration/command.cpp:112-116 | the registry scan returns exactly `FirstMatch`. When help is first, every input starting with "help" reaches entry 0 |
| `Command.Interpreter.Help` | configuration/command.cpp:191-211 | as written, under the in-bounds condition: the result code and buffer contents are those of `FitCount`, and on overflow the copied strings are left without a terminator |
| `Command.Interpreter.HelpBounded` | configuration/command.cpp:197-210 | corrected handler for every buffer of at least one character: NoError exactly when all help strings plus NUL fit. The buffer holds the longest fitting prefix, then NUL on success |
| `Command.Interpreter.ProcessInput` | configuration/command.cpp:106-159 | clears the buffer. With no match: CommandNotFound and an empty buffer. With a failed allocation: CouldNotAllocate and no handler runs. Otherwise only the first matching handler runs, once, with the truncated first max+1 tokens, and its code is returned unchanged |

## Left out

- In-place tokenization: strtok_r writes NULs into the caller's input line, and truncation writes a NUL at offset 32. The model gives handlers copies of the tokens and does not change the input.
- strtok_r's `lasts` pointer: the model continues scanning right after the token rather than after the delimiter that ended it. This does not change which tokens are produced.
- Command.Interpreter.ProcessInput: a user callback is an oracle `(id, arguments) -> Error`. Its writes to the output buffer are not modelled (that code is not part of this model), so in that case the contract describes the buffer only as cleared.
- Command.Interpreter.ProcessInput: heap allocation (`pvPortMalloc`/`vPortFree`) is a boolean parameter telling whether the allocator delivers. Freeing has no observable effect and is not modelled.
- Command.Interpreter.ProcessInput: dispatch keeps the as-written help handler, so it requires the in-bounds condition whenever the line reaches help. `Command.Interpreter.HelpBounded` is not wired into it.
- HelpOutput.FitCount: defined for capacities of at least 1. At 0 the code's `output_buffer_length - 1` wraps to SIZE_MAX and admits every string, but the dispatcher has already written byte 0 of such a buffer, so the model requires a non-empty output buffer throughout.
- Integer widths: `uint32_t` counters and `size_t` lengths are unbounded here. The wrap-around of `arguments_count_max + 1` at 2^32-1 is not modelled.
- Pointer identity: pair keys and values are copies of the token text (the key without its "--"), not pointers into the argument array. Definitions are stored by value, not by pointer.
- C strings with an embedded NUL cannot occur. Names, help strings, the input line and the tokens passed to pair extraction have type `CString`.
- The rule that commands must be registered before the scheduler starts is a concurrency contract and cannot be checked here. The registry is one object.
- The numeric values of the error codes are defined in `error.h`, which is not part of this model. Only the variants the interpreter uses appear.
- The hardware configuration macros in `config.h` (pins, peripherals, IRQ priorities, clock settings) carry no logic. Only `COMMAND_ARGUMENT_LENGTH` is used.

## Findings

| source | as written | input that shows it | evidently intended | confidence | as-written member | corrected member |
|---|---|---|---|---|---|---|
| configuration/command.cpp:201 | each help string is compared with `output_buffer_length - 1`, never with the room left after the strings already copied | help strings "ab" and "c", buffer of 3 characters: both pass, "abc" is copied and the NUL goes to index 3 | compare each string with the room left, so help reports BufferOverflow instead of writing past the buffer | high, not executed | `HelpOutput.HelpOverrunExample` | `Command.Interpreter.HelpBounded` |
| configuration/command.cpp:79-83 | after `pairs_length` keys, the next key bumps `j` to `pairs_length` and writes `pairs[j]`. Line 66 also writes `pairs[0]` when `pairs_length` is 0 | tokens "--a", "--b" with `pairs_length` 1: the second key is written to `pairs[1]` | stop once every slot holds a pair, and write nothing into an empty array | high, not executed | `Pairs.AsWrittenOverrun` | `Pairs.ArgumentsToPairsBounded` |

`Command.Interpreter.ProcessInput` still uses the as-written help handler, with its in-bounds condition as a precondition, so that dispatch matches the code. The pair extractor is not called by the dispatcher.
