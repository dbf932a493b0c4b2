# A verified model of a table-driven 8086 decoder and emulator

The program decodes 8086 machine code with tables. It then executes a small
part of that code (`mov`, `add`) against a register file, a
64 KiB memory and a flags word.

The decoder is built from a textual instruction table. Each line holds:

- an 8-character template for the first byte;
- optionally, an 8-character template for the mod/reg/rm byte;
- optionally, flag names that say which operand bytes follow.

Section lines `=NAME` set the mnemonic of the lines after them.

Compiling the table gives, for every first byte, the matcher of the last line
whose first template the byte matches. For every first byte it also gives a
row of eight mod/reg/rm matchers, indexed by bits 5..3 of the second byte.

Decoding one instruction works like this:

1. It looks up the first byte and takes the direction, width and register
   fields from it.
2. When the line has a second template, it reads the second byte and turns
   its mod and r/m fields into a register or a memory operand.
3. It applies the operation's flags in declaration order. The flags read
   immediates and displacements and route the accumulator.
4. It writes the decoded record.

The emulator's state:

- The register file is AX, BX, CX, DX, SP, BP, SI, DI, CS, DS, SS and ES, 24
  bytes little-endian. AL..DH alias the halves of AX..DX.
- Memory is 64 KiB, addressed through the effective address of a
  base/index mode plus a displacement.
- The flags word holds the nine 8086 flags.

`mov` copies between operands. `add` stores the `int` sum and sets CARRY,
SIGN, ZERO and PARITY from it.

## Structure

Each Dafny module follows one part of the program:

| module | models |
|---|---|
| `Results` | Option, Result and Outcome values. Java's exceptions become error values. |
| `JavaLang` | The Java library behaviour the code relies on: `int` wrap-around, `Math.abs`, `strip`, `toUpperCase`, `contains`, `replace` and `replaceAll` with a literal pattern, decimal rendering. |
| `Registers` | `Register.java`: the offsets and the byte and word spans they encode. |
| `Flags`, `FlagWords` | `Flag.java` and the flag operations of `Emu8086.java`. |
| `ParityTables` | `ParityTable.java`. The bit loop is a method and the static table is a class. |
| `EffectiveAddresses`, `MemoryAddresses` | The addressing modes and the rendering of a memory operand. |
| `Operations` | The opcode and flag enumerations, which are not shown in the source. They are kept abstract. |
| `Templates` | One template compiled to masks and shifts, and what the compiled masks mean. |
| `TableCompiler` | `Decoder.decoder` stated on values: a line's classification, split, flag scan and rewrites, and the slot each line wins. |
| `StreamDecoding` | `Decoder.decode` stated on values: the byte readers, each step of `decode`, and the decoded record. |
| `Decoding` | The program's imperative form, proved against the two modules above. A `Decoder` class owns a 256-slot array and a 256×8 array that are filled in place. A `DecodeState` class has the fields `decode` assigns. `decode` advances a cursor over the input bytes. |
| `DecoderProperties` | Properties of `decode`: the illegal-instruction errors, the bytes each addressing mode and immediate consumes, accumulator routing, and staying inside the lookup tables. |
| `Emulation` | `Emu8086.java`. Value-level definitions of get/set, effective address, `mov` and `add`, with their properties. An `Emu8086` class holds a register-file array, a memory array and a flags field; its methods are proved against those definitions. |

Two behaviours of the code are modelled as written:

- **The shift of a multi-bit field.** The character loop assigns `7 - i`
  at every character of the field (`Decoder.java` lines 145-151), so the
  shift is that of the last (rightmost) character. For a contiguous field
  that puts the field's low bit at bit 0.
- **The second template's register and segment fields.** The second loop
  ORs into the same register and segment locals the first loop filled
  (`Decoder.java` lines 193-198). So the mod/reg/rm matcher inherits the
  first template's register and segment masks and shifts, and the ESC
  line depends on this.

The behaviours below are modelled as written, not as the 8086 defines them:

- the BP_DI base, which adds SI;
- the CARRY and SIGN bit tests of `add`;
- the bit positions of the flags.

## Model

| member | source | states |
|---|---|---|
| `JavaLang.WrapInt32` | src/main/java/Emu8086.java:101 | Java's `int` sum: congruent to the mathematical sum modulo 2^32, and equal to it when it fits in 32 bits |
| `JavaLang.Abs` | src/main/java/MemoryAddress.java:7 | `Math.abs`: non-negative and ±x, except that the most negative `int` is returned unchanged |
| `JavaLang.StripLeading` | src/main/java/Decoder.java:59 | the result is a suffix of the input; everything dropped is whitespace, and the result does not start with whitespace |
| `JavaLang.StripTrailing` | src/main/java/Decoder.java:59 | the result is a prefix of the input; everything dropped is whitespace, and the result does not end with whitespace |
| `JavaLang.RemoveWhitespace` | src/main/java/Decoder.java:73 | no `\s` character is left; text without one is returned unchanged |
| `JavaLang.ToUpper` | src/main/java/Decoder.java:86 | the result has the same length, and each character is upper-cased in place |
| `JavaLang.ContainsIff` | src/main/java/Decoder.java:89 | `contains` holds exactly when the pattern occurs at some position |
| `JavaLang.DeleteAll` | src/main/java/Decoder.java:91 | deleting a name never lengthens the text; a name that does not occur leaves it unchanged |
| `JavaLang.Replace` | src/main/java/Decoder.java:100-111 | a same-length replacement keeps the length; text without the pattern is returned unchanged |
| `JavaLang.ReplaceOnce` | src/main/java/Decoder.java:100-111 | a single occurrence of the pattern, with no earlier start of it, is replaced and nothing else changes |
| `JavaLang.NatToString` | src/main/java/MemoryAddress.java:5 | decimal digits only, non-empty, with no leading zero except for 0 |
| `JavaLang.NatToStringRoundTrip` | src/main/java/MemoryAddress.java:5 | reading the rendered digits back gives the number |
| `Registers.ByteIndex` | src/main/java/Register.java:2-5 | a byte register's index `-offset - 1` lies in 0..7; it is odd exactly for AH, BH, CH and DH |
| `Registers.Offset` | src/main/java/Register.java:2-13 | the offset each register is declared with; its meaning — byte index, word span, aliasing — is stated by `ByteIndex`, `WordOf`, `SpanInFile` and the disjointness lemmas below |
| `Registers.IsByteRegister` | src/main/java/Register.java:2-5 | a register is a byte register exactly when its offset is negative, the test `get` and `set` branch on; `ByteIndex` and `ByteRegisterAliases` state what such a register owns |
| `Registers.WordOf` | src/main/java/Register.java:2-5 | each byte register is half of AX, BX, CX or DX: its byte is the word's offset, plus 1 for a high half |
| `Registers.SpanInFile` | src/main/java/Register.java:2-13 | every register's bytes lie in the 24-byte register file |
| `Registers.WordRegistersDisjoint` | src/main/java/Register.java:2-13 | word registers have even offsets 0..22, and two distinct ones share no byte |
| `Registers.ByteRegistersDisjoint` | src/main/java/Register.java:2-5 | distinct byte registers own distinct bytes |
| `Registers.ByteRegisterAliases` | src/main/java/Register.java:2-13 | a byte register lies inside exactly one word register, the one it is half of; SP..ES have no byte alias |
| `Flags.BitIndex` | src/main/java/Flag.java:2-10 | every declared bit index lies in 0..11 |
| `Flags.SetTestMask` | src/main/java/Flag.java:19 | `1 << bitIndex` has exactly one bit set, and that bit is in the low 12 bits |
| `Flags.ClearMask` | src/main/java/Flag.java:20 | `~setTestMask` shares no bit with the set/test mask, and together they cover all 32 bits |
| `Flags.MasksDisjoint` | src/main/java/Flag.java:2-10 | distinct flags have distinct bit indices and disjoint set/test masks |
| `FlagWords.SetFlagSets` | src/main/java/Emu8086.java:51-53 | `setFlag(f)` makes `f` read set and keeps every other bit of the word |
| `FlagWords.WithFlag` | src/main/java/Emu8086.java:43-57 | `setFlag(flag, value)` as a value: OR in the set/test mask when `value`, AND with the clear mask otherwise; `WithFlagReads`, `WithFlagKeeps` and `WithFlagSetsOnlyIt` state that only `f` changes and it reads `value` |
| `FlagWords.ClearFlagClears` | src/main/java/Emu8086.java:55-57 | `clearFlag(f)` makes `f` read clear and keeps every other bit of the word |
| `FlagWords.WithFlagReads` | src/main/java/Emu8086.java:43-61 | after `setFlag(f, v)`, `getFlag(f)` is `v` |
| `FlagWords.WithFlagKeeps` | src/main/java/Emu8086.java:43-61 | after `setFlag(f, v)`, every other flag reads as before |
| `FlagWords.WithFlagSetsOnlyIt` | src/main/java/Emu8086.java:43-61 | `setFlag(f, v)` sets `f` to `v`, keeps every other bit and so every other flag |
| `FlagWords.SetArithmeticFlagsReads` | src/main/java/Emu8086.java:103-106 | after the four calls of `add`, CARRY, SIGN, ZERO and PARITY hold the values passed |
| `FlagWords.SetArithmeticFlagsKeeps` | src/main/java/Emu8086.java:103-106 | the four calls leave AUXILIARY_CARRY, OVERFLOW, INTERRUPT_ENABLE, DIRECTION and TRAP as they were |
| `ParityTables.ComputeParity` | src/main/java/ParityTable.java:10-18 | the bit loop returns true exactly when bits 0..7 hold an even number of ones |
| `ParityTables.EvenParity` | src/main/java/ParityTable.java:10-18 | an even number of ones among bits 0..7: the specification `ComputeParity` is proved equal to, with `EvenParityOfLowByte`, `ParityOfZero` and `FlipFlipsParity` stating its properties |
| `ParityTables.EvenParityOfLowByte` | src/main/java/ParityTable.java:12-16 | bits above 7 do not change the parity |
| `ParityTables.ParityOfZero` | src/main/java/ParityTable.java:11 | the parity of 0 is even |
| `ParityTables.FlipChangesCount` | src/main/java/ParityTable.java:12-16 | flipping one of bits 0..7 changes the count of ones by exactly one |
| `ParityTables.FlipFlipsParity` | src/main/java/ParityTable.java:12-16 | flipping any one of bits 0..7 flips the parity |
| `ParityTables.ParityTable.constructor` | src/main/java/ParityTable.java:4-8 | the static fill of the table: entry `i` is the parity of `i` for all 256 entries |
| `ParityTables.ParityTable.GetParity` | src/main/java/ParityTable.java:20-22 | `getParity(v)` is the parity of `v & 0xFF` |
| `EffectiveAddresses.Ordinal` | src/main/java/EffectiveAddress.java:2-10 | the nine modes have ordinals 0..8, and DIRECT is the last |
| `EffectiveAddresses.FromOrdinal` | src/main/java/EffectiveAddress.java:2-10 | each ordinal below 9 names a mode with that ordinal |
| `EffectiveAddresses.OrdinalRoundTrip` | src/main/java/EffectiveAddress.java:2-10 | ordinals number the modes one to one, so there are exactly nine |
| `EffectiveAddresses.TextEmptyOnlyForDirect` | src/main/java/EffectiveAddress.java:10 | only DIRECT renders as the empty string |
| `EffectiveAddresses.Text` | src/main/java/EffectiveAddress.java:2-20 | the text each mode is declared with, returned by `toString`; `TextEmptyOnlyForDirect` states that only DIRECT is empty and `Emulation.BaseFollowsText` that the text names the registers the base adds |
| `MemoryAddresses.ToString` | src/main/java/MemoryAddress.java:2-9 | the rendering always starts with `[` and ends with `]` |
| `MemoryAddresses.DirectShowsDisplacement` | src/main/java/MemoryAddress.java:4-5 | DIRECT shows the displacement in decimal, with a minus sign when negative, and the digits read back as its value |
| `MemoryAddresses.ZeroDisplacementShowsMode` | src/main/java/MemoryAddress.java:7 | with displacement 0, a base/index mode shows just its text in brackets |
| `MemoryAddresses.SignedDisplacementShown` | src/main/java/MemoryAddress.java:7 | a non-zero displacement follows the mode as ` + n` or ` - n`, where n reads back as its magnitude |
| `MemoryAddresses.MostNegativeDisplacementShown` | src/main/java/MemoryAddress.java:7 | because `Math.abs` overflows, the most negative displacement shows two minus signs |
| `Operations.OpcodeValueOf` | src/main/java/Decoder.java:69 | `Opcode.valueOf` finds a constant exactly when one of that name is declared, and returns it |
| `Templates.BitIsShift` | src/main/java/Decoder.java:128 | the loop's `bit` starts at 0x80, and `bit >>= 1` moves it one position right per character |
| `Templates.FixedBitsMatchExactly` | src/main/java/Decoder.java:128-134 | `(b & fixedMask) == fixedValue` holds exactly when `b` agrees with every `0` and `1` of the template |
| `Templates.OpcodeMatcher.Matches` | src/main/java/Decoder.java:382-384 | `matches(byteValue)` of the first matcher: the byte agrees with the fixed mask and value; `OpcodeMatchesExactly` states that this holds iff the byte agrees with every 0 and 1 of the template |
| `Templates.ModRegRmMatcher.Matches` | src/main/java/Decoder.java:411-413 | `matches(byteValue)` of the second matcher; `ModRegRmMatchesExactly` states the same agreement for the second template |
| `Templates.ModRegRmMatcher.MatchesReg` | src/main/java/Decoder.java:432-435 | `matchesReg(reg)`: `reg << 3` agrees with the fixed bits; `MatchesRegExactly` states it as agreement of the second template with bits 5..3 |
| `Templates.OpcodeMatcherOf` | src/main/java/Decoder.java:114-167 | the first character loop and the matcher it builds; `Decoding.CompileOpcodeByte` is proved equal to it, and `OpcodeMatchesExactly`, `MaskOfPosition`, `LastShiftIsRightmost` and `FieldMasksDisjoint` state what its masks and shifts mean |
| `Templates.ModRegRmMatcherOf` | src/main/java/Decoder.java:169-210 | the second loop, ORing into the first loop's register and segment locals; `Decoding.CompileModRegRmByte` is proved equal to it, and `ModRegRmMatchesExactly`, `MatchesRegExactly` and `TableCompiler.SecondMatcherKeepsFirstFields` state its meaning |
| `Templates.FixedValueMatches` | src/main/java/Decoder.java:128-134 | the fixed value sets only bits inside the fixed mask, so the fixed value itself matches |
| `Templates.OpcodeMatchesExactly` | src/main/java/Decoder.java:382-384 | `OpcodeMatcher.matches(b)` holds exactly when `b` agrees with the first template's fixed bits |
| `Templates.ModRegRmMatchesExactly` | src/main/java/Decoder.java:411-413 | `ModRegRmMatcher.matches(b)` holds exactly when `b` agrees with the second template's fixed bits |
| `Templates.MatchesRegExactly` | src/main/java/Decoder.java:432-435 | `matchesReg(j)` holds exactly when the byte `j << 3` agrees with the second template's fixed bits |
| `Templates.MaskOfPosition` | src/main/java/Decoder.java:145-151 | a field's mask has bit position `k` set exactly when the template holds the field's letter at `k` |
| `Templates.FieldMasksDisjoint` | src/main/java/Decoder.java:128-151 | the masks of two different letters share no bit |
| `Templates.LastShiftIsRightmost` | src/main/java/Decoder.java:145-151 | a field's shift is `7 - i` for the rightmost position `i` holding its letter, and the starting value when the letter does not occur |
| `Templates.ContiguousFieldFits` | src/main/java/Decoder.java:145-151 | a contiguous field of at most three letters gets shift `8 - lo - width`, and its mask and shift select a value below `2^width` |
| `Templates.FieldValueBelow` | src/main/java/Decoder.java:249-250 | `(b & mask) >> shift` of a fitting field is below `2^width`, so a 3-bit field indexes the 8-entry tables |
| `Templates.AbsentLetterMask` | src/main/java/Decoder.java:128-151 | a letter that does not occur gives a zero mask |
| `TableCompiler.BlankLineSkipped` | src/main/java/Decoder.java:59-62 | a line of nothing but whitespace is skipped |
| `TableCompiler.Classify` | src/main/java/Decoder.java:59-73 | a pattern's text is no longer than the line and a section name is shorter; `BlankLineSkipped`, `PatternHasNoWhitespace`, `SectionNameUpperCase` and `LeadingWhitespaceIgnored` state the rest |
| `TableCompiler.PatternHasNoWhitespace` | src/main/java/Decoder.java:73 | the text of a pattern line holds no `\s` character |
| `TableCompiler.SectionNameUpperCase` | src/main/java/Decoder.java:68-71 | a section name holds no lower-case ASCII letter |
| `TableCompiler.LeadingWhitespaceIgnored` | src/main/java/Decoder.java:59 | indentation does not change how a line is read |
| `TableCompiler.SplitTemplates` | src/main/java/Decoder.java:75-84 | the split fails exactly when a `substring(0, 8)` would run past the end; the second template is present exactly when the text after the first starts with `md`; the three parts concatenate back to the text |
| `TableCompiler.ScanFlagsCollects` | src/main/java/Decoder.java:86-93 | a flag is collected exactly when its name occurs in the text that the flags before it left |
| `TableCompiler.ScanFlags` | src/main/java/Decoder.java:86-93 | the text left by the flag loop is never longer than the text it started from; `ScanFlagsCollects`, `ScanFlagsFromOrder` and `ScanFlagsShrinks` state which flags it collects |
| `TableCompiler.ParseFlags` | src/main/java/Decoder.java:86-96 | a refusal is always "unhandled flags" on the line's remainder, and every accepted flag is a declared constant |
| `TableCompiler.RewriteOpcodeByte` | src/main/java/Decoder.java:100-103 | the three rewrites of the first template, in order; `EscInheritsRegisterField` states their effect on the ESC line |
| `TableCompiler.RewriteModRegRmByte` | src/main/java/Decoder.java:105-112 | the five rewrites of the second template, in order; `EscInheritsRegisterField` states their effect on the ESC line |
| `TableCompiler.CollectsDistinct` | src/main/java/Decoder.java:86-93 | the same, for any order of distinct flags |
| `TableCompiler.ScanFlagsFromOrder` | src/main/java/Decoder.java:88-93 | only flags of the declaration order already visited are collected |
| `TableCompiler.ScanFlagsShrinks` | src/main/java/Decoder.java:88-93 | every collected flag deletes at least one character from the remaining text |
| `TableCompiler.NotYetCollected` | src/main/java/Decoder.java:88-93 | a flag is not collected before the loop reaches it |
| `TableCompiler.NoFlagText` | src/main/java/Decoder.java:94-96 | a line with nothing after its templates has no flags and is accepted |
| `TableCompiler.UnknownFlagText` | src/main/java/Decoder.java:94-96 | text in which no flag name occurs is rejected exactly when it is not empty |
| `TableCompiler.SingleFlag` | src/main/java/Decoder.java:86-96 | a remainder that upper-cases to one flag's name, when no other name occurs inside it, is accepted with exactly that flag |
| `TableCompiler.CompileEntry` | src/main/java/Decoder.java:154-210 | a second matcher exists exactly when there is a second template; the operation goes to the second matcher if there is one and to the first otherwise |
| `TableCompiler.SecondMatcherKeepsFirstFields` | src/main/java/Decoder.java:193-198 | the second matcher's register and segment masks contain the first template's; without an `r` in the second template it keeps the first template's register mask and shift |
| `TableCompiler.EscInheritsRegisterField` | src/main/java/Decoder.java:100-111 | for the ESC line, `xxx` becomes the register field at bits 2..0, `yyy` the segment field at bits 5..3, and the second matcher inherits the register field |
| `TableCompiler.ErrorPersists` | src/main/java/Decoder.java:58-96 | the first line that cannot be compiled decides the result of the whole table |
| `TableCompiler.CompileLine` | src/main/java/Decoder.java:58-226 | one pass of the line loop adds at most one entry; `LineAddsEntry` states that pattern lines add exactly one and other lines none |
| `TableCompiler.CompileUpTo` | src/main/java/Decoder.java:52-229 | after `n` lines at most `n` entries exist; `ErrorPersists` states that the first failing line decides the result |
| `TableCompiler.LineAddsEntry` | src/main/java/Decoder.java:98-226 | a pattern line appends exactly one compiled entry, and skipped and section lines add none |
| `TableCompiler.LastPrimaryIsLastMatch` | src/main/java/Decoder.java:212-214 | primary slot `i` is empty exactly when no line matches `i`, and otherwise holds the matcher of the last line that does |
| `TableCompiler.LastPrimary` | src/main/java/Decoder.java:212-214 | a filled primary slot holds a matcher that matches the slot's byte; `LastPrimaryIsLastMatch` states that it is the last matching line's |
| `TableCompiler.LastSecondary` | src/main/java/Decoder.java:215-223 | a filled secondary entry holds a matcher that accepts the entry's index; `LastSecondaryIsLastMatch` states that it is the last filling line's |
| `TableCompiler.LastSecondaryIsLastMatch` | src/main/java/Decoder.java:215-223 | secondary entry `[i][j]` is empty exactly when no two-template line matches `i` and accepts `j << 3`, and otherwise holds the last such line's second matcher |
| `TableCompiler.LastPrimaryAppend` | src/main/java/Decoder.java:212-214 | a new line takes every slot it matches and leaves the others as they were |
| `TableCompiler.LastSecondaryAppend` | src/main/java/Decoder.java:219-223 | a new line takes every secondary entry it fills and leaves the others as they were |
| `TableCompiler.SecondaryNeedsPrimary` | src/main/java/Decoder.java:212-223 | a filled secondary entry lies behind a filled primary slot |
| `StreamDecoding.MemTableFollowsDeclarationOrder` | src/main/java/Decoder.java:35-44 | `MEM_TABLE[rm]` is the mode with ordinal `rm`, and never DIRECT |
| `StreamDecoding.RegisterTablesAlias` | src/main/java/Decoder.java:13-33 | byte register `i` of the table is the low half of word register `i` for i < 4, and the high half of word register `i - 4` otherwise |
| `StreamDecoding.SignedByte` | src/main/java/Decoder.java:349-351 | the `(byte)` cast lies in -128..127 and is congruent to the byte modulo 256 |
| `StreamDecoding.SignedWord` | src/main/java/Decoder.java:353-355 | the `(short)` cast lies in -32768..32767 and is congruent to the word modulo 65536 |
| `StreamDecoding.LittleEndianOr` | src/main/java/Decoder.java:366 | ORing the high byte shifted by 8 onto the low byte gives `lo + 256 * hi` |
| `StreamDecoding.ReadU8Consumes` | src/main/java/Decoder.java:357-363 | `readU8` consumes one byte, and fails with end of input exactly when none remains |
| `StreamDecoding.ReadU8` | src/main/java/Decoder.java:357-363 | a value in 0..255 and one byte consumed, or EndOfInput exactly when no byte remains |
| `StreamDecoding.ReadS8` | src/main/java/Decoder.java:349-351 | a value in -128..127 and one byte consumed, or EndOfInput |
| `StreamDecoding.ReadU16` | src/main/java/Decoder.java:365-367 | a value in 0..65535 and two bytes consumed, or EndOfInput |
| `StreamDecoding.ReadS16` | src/main/java/Decoder.java:353-355 | a value in -32768..32767 and two bytes consumed, or EndOfInput |
| `StreamDecoding.ReadS8Consumes` | src/main/java/Decoder.java:349-351 | `readS8` consumes one byte and returns it sign-extended |
| `StreamDecoding.ReadU16Consumes` | src/main/java/Decoder.java:365-367 | `readU16` consumes two bytes, low byte first, and fails with end of input when fewer remain |
| `StreamDecoding.ReadS16Consumes` | src/main/java/Decoder.java:353-355 | `readS16` consumes two bytes and returns their little-endian value sign-extended |
| `StreamDecoding.RegisterAt` | src/main/java/Decoder.java:250 | indexing the word or byte table fails exactly for an index of 8 or more |
| `StreamDecoding.SegmentAt` | src/main/java/Decoder.java:252 | indexing the segment table fails exactly for an index of 4 or more |
| `StreamDecoding.MemAt` | src/main/java/Decoder.java:282 | indexing `MEM_TABLE` fails exactly for an index of 8 or more, and otherwise gives the mode with that ordinal |
| `StreamDecoding.FirstByte` | src/main/java/Decoder.java:239-254 | with no `d` bit, the direction is to-register exactly when the byte has a register field; a segment operand forces wide; an operand exists exactly when there is a field; it fails exactly when the field's value is past its table |
| `StreamDecoding.SecondRegister` | src/main/java/Decoder.java:269-275 | the second byte's register or segment field replaces the first byte's, a segment forces wide, and everything else is kept |
| `StreamDecoding.ModeOperand` | src/main/java/Decoder.java:277-294 | the cursor never moves back; `RegisterMode`, `DirectMode`, `NoDisplacementMode`, `ByteDisplacementMode`, `WordDisplacementMode` and `OnlyModeThreeIsRegister` state each case of the switch |
| `StreamDecoding.SecondByte` | src/main/java/Decoder.java:256-263 | the second byte is consumed; `UnmatchedSecondByteIsIllegal`, `TruncatedSecondByte` and `SecondByteErrors` state its errors |
| `StreamDecoding.ModRegRmStage` | src/main/java/Decoder.java:265-294 | the cursor never moves back; `ModRegRmStageOnlyEnds` states that fitting fields fail only at the end of the input |
| `StreamDecoding.FlagStep` | src/main/java/Decoder.java:301-335 | a flag case never moves the cursor back or changes the width, and only the immediate-reading flags change the immediate |
| `StreamDecoding.Readers` | src/main/java/Decoder.java:302-310 | the reader each flag case calls consumes one or two bytes and fails only with EndOfInput; `DataWReads` and `DataSReads` state which reader each width selects |
| `StreamDecoding.ApplyFlags` | src/main/java/Decoder.java:298-336 | the flag loop never moves the cursor back or changes the width |
| `StreamDecoding.FlagErrorPersists` | src/main/java/Decoder.java:298-336 | a flag case that throws ends the loop with its error |
| `StreamDecoding.OpcodeStage` | src/main/java/Decoder.java:239-296 | a first matcher carrying an operation reads no second byte and keeps that operation |
| `StreamDecoding.Finish` | src/main/java/Decoder.java:338-346 | the record is written exactly when the flag loop succeeded; it carries the operation's mnemonic, and the cursor stays where the loop left it |
| `StreamDecoding.DecodeAt` | src/main/java/Decoder.java:232-347 | a successful decode consumes at least one byte |
| `Decoding.DecodeState.Store` | src/main/java/Decoder.java:338-346 | every field of the decode state takes its value from the record |
| `Decoding.CollectFlags` | src/main/java/Decoder.java:86-96 | the flag loop over the declaration order gives the value-level flag scan and its rejection |
| `Decoding.Compile` | src/main/java/Decoder.java:100-210 | the rewrites and both character loops give the compiled entry |
| `Decoding.CompileOpcodeByte` | src/main/java/Decoder.java:114-167 | the first-byte loop gives the first matcher of the template |
| `Decoding.CompileModRegRmByte` | src/main/java/Decoder.java:169-210 | the second-byte loop, starting from the first loop's register and segment locals, gives the second matcher |
| `Decoding.Decoder.constructor` | src/main/java/Decoder.java:46-47 | both tables start empty |
| `Decoding.Decoder.Install` | src/main/java/Decoder.java:212-226 | after the fill of a line, every slot and entry holds the matcher of the last line that claims it |
| `Decoding.Decoder.InstallSlot` | src/main/java/Decoder.java:213-225 | one pass of the fill loop updates slot `i` and its row and nothing else |
| `Decoding.Decoder.FillRow` | src/main/java/Decoder.java:219-223 | the inner loop writes exactly the row entries the second matcher accepts |
| `Decoding.Decoder.CompileLineAt` | src/main/java/Decoder.java:58-226 | one pass of the line loop gives the line's error, or the mnemonic in effect and the tables filled so far |
| `Decoding.Decoder.Build` | src/main/java/Decoder.java:52-230 | the built tables are those of the compiled lines, or the first failing line's error |
| `Decoding.Decoder.Decode` | src/main/java/Decoder.java:232-347 | `decode` succeeds exactly when the value-level decode does; it then stores that record and advances the cursor past the instruction, and on failure it leaves the decode state unchanged |
| `Decoding.Decoder.DecodeOperands` | src/main/java/Decoder.java:239-346 | the body of `decode` after the primary lookup |
| `Decoding.Decoder.OpcodeBytes` | src/main/java/Decoder.java:239-296 | the first byte's fields, then the second byte and its secondary entry when needed |
| `Decoding.Decoder.FirstByteFields` | src/main/java/Decoder.java:239-254 | the direction, width and register or segment field of the first byte |
| `Decoding.Decoder.SecondByteStage` | src/main/java/Decoder.java:257-296 | reads the second byte and selects its secondary entry by bits 5..3, failing as illegal when that entry is empty |
| `Decoding.Decoder.ModRegRm` | src/main/java/Decoder.java:265-294 | the selected secondary entry applied to the second byte |
| `Decoding.Decoder.ReadModeOperand` | src/main/java/Decoder.java:277-294 | the `switch (mod)` |
| `Decoding.Decoder.FlagLoop` | src/main/java/Decoder.java:298-346 | the flag loop and the record it stores |
| `Decoding.Decoder.RunFlags` | src/main/java/Decoder.java:298-336 | the loop visits the operation's flags in declaration order |
| `Decoding.Decoder.FlagCase` | src/main/java/Decoder.java:301-335 | one case of the flag switch |
| `DecoderProperties.UnmatchedFirstByteIsIllegal` | src/main/java/Decoder.java:233-237 | a first byte that no line matches is an illegal instruction reported with that byte |
| `DecoderProperties.UnmatchedSecondByteIsIllegal` | src/main/java/Decoder.java:256-263 | a second byte whose bits 5..3 select an unfilled entry is an illegal instruction reported with both bytes |
| `DecoderProperties.NoByteIsEndOfInput` | src/main/java/Decoder.java:357-363 | with no byte left, the error is end of input and not an illegal instruction |
| `DecoderProperties.TruncatedSecondByte` | src/main/java/Decoder.java:256-258 | a line with a second template whose first byte is the last byte of the stream ends with EndOfInput, not an illegal instruction |
| `DecoderProperties.CoverageCompleteness` | src/main/java/Decoder.java:233-347 | with fitting entries, a one-byte stream whose byte some line matches decodes or ends with EndOfInput, never as an illegal instruction |
| `DecoderProperties.RegisterMode` | src/main/java/Decoder.java:291-293 | mode 3 names a register from the word or byte table by width and consumes nothing |
| `DecoderProperties.OnlyModeThreeIsRegister` | src/main/java/Decoder.java:277-294 | only mode 3 yields a register operand, and only a mode above 3 leaves the operand empty |
| `DecoderProperties.DirectMode` | src/main/java/Decoder.java:279-280 | mode 0 with rm 6 reads a two-byte little-endian direct address |
| `DecoderProperties.NoDisplacementMode` | src/main/java/Decoder.java:281-283 | mode 0 with another rm is `MEM_TABLE[rm]` with displacement 0 and consumes nothing |
| `DecoderProperties.ByteDisplacementMode` | src/main/java/Decoder.java:285-287 | mode 1 reads one signed displacement byte in -128..127 |
| `DecoderProperties.WordDisplacementMode` | src/main/java/Decoder.java:288-290 | mode 2 reads an unsigned two-byte displacement in 0..65535 |
| `DecoderProperties.DataWReads` | src/main/java/Decoder.java:305 | DATAW reads a word when wide and a signed byte when narrow |
| `DecoderProperties.DataSReads` | src/main/java/Decoder.java:306 | DATAS reads a signed byte when wide with `s`, a word when wide without it, and an unsigned byte when narrow |
| `DecoderProperties.ImmediateOverwritten` | src/main/java/Decoder.java:305-310 | an immediate-reading flag ignores the immediate it finds |
| `DecoderProperties.LastImmediateWins` | src/main/java/Decoder.java:298-310 | when several immediate-reading flags apply, the last one applied decides the immediate |
| `DecoderProperties.AccumulatorRouting` | src/main/java/Decoder.java:311-328 | TO_ACC and FROM_ACC put AX or AL into the empty register slot, or else into the r/m slot, and set the direction to match |
| `DecoderProperties.FirstByteInRange` | src/main/java/Decoder.java:248-254 | with fitting fields, the first byte's register or segment lookup never fails |
| `DecoderProperties.SecondRegisterInRange` | src/main/java/Decoder.java:269-275 | with fitting fields, the second byte's register or segment lookup never fails |
| `DecoderProperties.ModeOperandOnlyEnds` | src/main/java/Decoder.java:277-294 | with rm below 8, an addressing mode fails only by running out of input |
| `DecoderProperties.FlagStepOnlyEnds` | src/main/java/Decoder.java:301-335 | a flag case fails only by running out of input |
| `DecoderProperties.ApplyFlagsOnlyEnds` | src/main/java/Decoder.java:298-336 | the whole flag loop fails only by running out of input |
| `DecoderProperties.ModRegRmStageOnlyEnds` | src/main/java/Decoder.java:265-294 | a fitting second matcher fails only by running out of input |
| `DecoderProperties.SecondByteErrors` | src/main/java/Decoder.java:256-296 | with fitting entries, the second-byte stage never indexes past a table |
| `DecoderProperties.FittingTablesStayInRange` | src/main/java/Decoder.java:232-347 | when every compiled line's fields fit, `decode` fails only as an illegal instruction or at the end of input |
| `DecoderProperties.DecodeWithStaysInRange` | src/main/java/Decoder.java:239-346 | the same for the part of `decode` after the primary lookup |
| `DecoderProperties.OpcodeStageStaysInRange` | src/main/java/Decoder.java:239-296 | the same for the opcode bytes |
| `Emulation.ReadRegister` | src/main/java/Emu8086.java:161-168 | a byte register reads 0..255 and a word register 0..65535 |
| `Emulation.WriteRegister` | src/main/java/Emu8086.java:186-193 | a write keeps the register file at 24 bytes |
| `Emulation.ReadAfterWrite` | src/main/java/Emu8086.java:157-193 | a register reads back the value written, truncated to 8 or 16 bits |
| `Emulation.WriteOnlyTouchesSpan` | src/main/java/Emu8086.java:186-193 | a write changes only the byte `-offset - 1`, or the bytes `offset` and `offset + 1` |
| `Emulation.DisjointRegisterKept` | src/main/java/Emu8086.java:186-193 | a register that shares no byte with the one written keeps its value |
| `Emulation.ByteWriteAliasesWord` | src/main/java/Emu8086.java:186-193 | writing AL..DL changes only the low byte of AX..DX, AH..DH only the high byte, and every other word register keeps its value |
| `Emulation.WordWriteSplitsIntoHalves` | src/main/java/Emu8086.java:186-193 | after a word write, its low half reads the value's low byte and its high half the next byte |
| `Emulation.ReadMemory` | src/main/java/Emu8086.java:170-176 | throws exactly when the index or the byte after it (when wide) is outside memory, and otherwise reads a value below 2^8 or 2^16 |
| `Emulation.WriteMemory` | src/main/java/Emu8086.java:195-201 | throws exactly when out of bounds and keeps the memory size |
| `Emulation.MemoryReadAfterWrite` | src/main/java/Emu8086.java:170-201 | a successful memory write reads back the truncated value and leaves every other byte as it was |
| `Emulation.Base` | src/main/java/Emu8086.java:204-214 | a base is the sum of at most two 16-bit registers |
| `Emulation.EffectiveAddressOf` | src/main/java/Emu8086.java:203-217 | the `int` sum of the base and the displacement; `EffectiveAddressExact` states that it is the exact sum when the displacement is in -128..65535 |
| `Emulation.BaseFollowsText` | src/main/java/Emu8086.java:203-217 | every mode but BP_DI adds the registers its text names, and DIRECT adds none; BP_DI adds BP and SI |
| `Emulation.EffectiveAddressExact` | src/main/java/Emu8086.java:203-217 | for every displacement the decoder produces, the address is the base plus the displacement without wrap-around, and just the displacement for DIRECT |
| `Emulation.GetOperand` | src/main/java/Emu8086.java:149-155 | an operand reads a value below 2^16 |
| `Emulation.SetOperand` | src/main/java/Emu8086.java:178-184 | a store keeps the flags and the buffer sizes, and a register store always succeeds |
| `Emulation.OperandReadAfterWrite` | src/main/java/Emu8086.java:149-201 | a stored operand reads back the truncated value, and a memory store leaves the register file alone |
| `Emulation.MovResult` | src/main/java/Emu8086.java:122-143 | `mov` keeps the flags and the buffer sizes |
| `Emulation.MovSelection` | src/main/java/Emu8086.java:131-139 | with neither operand present it fails with a null operand; a register-and-memory source value is below 2^16; `MovStoresSource` states that the selected target reads the selected source |
| `Emulation.MovStoresSource` | src/main/java/Emu8086.java:131-139 | `mov` fails with the selection's error, or else is the store of the selected source into the selected target; after a `mov` that completes, the destination reads the source truncated to its width and the flags are untouched |
| `Emulation.MovBetweenRegisters` | src/main/java/Emu8086.java:135-139 | a register-to-register `mov` always completes, copies in the direction `isToReg` gives, and leaves memory alone |
| `Emulation.AddResult` | src/main/java/Emu8086.java:71-112 | `add` keeps the buffer sizes, and a failed operand read throws with the machine unchanged |
| `Emulation.AddOperands` | src/main/java/Emu8086.java:80-99 | with neither operand present it fails with a null operand; every value read from a register or memory is below 2^16 |
| `Emulation.AddFlags` | src/main/java/Emu8086.java:103-106 | the four `setFlag` calls as a value; `AddFlagsMeaning` states what each flag reads afterwards and that the other five are kept |
| `Emulation.AddFlagsMeaning` | src/main/java/Emu8086.java:101-106 | after `add`, ZERO is set exactly when the sum is 0, PARITY is the parity of its low byte, CARRY and SIGN are the code's bit tests, and the other five flags are unchanged |
| `Emulation.AddStoresSum` | src/main/java/Emu8086.java:101-108 | the flags come from the sum even when the store throws; a register target always completes; a completed store holds the sum truncated to the target's width |
| `Emulation.Emu8086.constructor` | src/main/java/Emu8086.java:17-24 | a zeroed 24-byte register file, a zeroed 64 KiB memory and a zero flags word |
| `Emulation.Emu8086.GetFlag` | src/main/java/Emu8086.java:59-61 | `getFlag(flag)`: whether the flag's set/test bit is set; `SetFlag`, `ClearFlag` and `FlagWords.WithFlagReads` state what it reads after each update |
| `Emulation.Emu8086.SetFlag` | src/main/java/Emu8086.java:51-53 | the flag reads set afterwards and every other bit is kept |
| `Emulation.Emu8086.ClearFlag` | src/main/java/Emu8086.java:55-57 | the flag reads clear afterwards and every other bit is kept |
| `Emulation.Emu8086.SetFlagTo` | src/main/java/Emu8086.java:43-49 | the flags word becomes the word with that one flag set to the value |
| `Emulation.Emu8086.GetRegister` | src/main/java/Emu8086.java:157-168 | reads the register's value from the register-file array |
| `Emulation.Emu8086.SetRegister` | src/main/java/Emu8086.java:186-193 | the register-file array becomes the file with that register written |
| `Emulation.Emu8086.EffectiveAddress` | src/main/java/Emu8086.java:203-217 | the mode's base plus the displacement, read from the current registers |
| `Emulation.Emu8086.GetMemory` | src/main/java/Emu8086.java:170-176 | the memory read at the effective address, or its out-of-bounds error |
| `Emulation.Emu8086.SetMemory` | src/main/java/Emu8086.java:195-201 | the memory write at the effective address; out of bounds it throws and writes nothing |
| `Emulation.Emu8086.Get` | src/main/java/Emu8086.java:149-155 | the read dispatches on a register or a memory operand |
| `Emulation.Emu8086.Set` | src/main/java/Emu8086.java:178-184 | the store dispatches on the operand; a throw leaves the state as it was |
| `Emulation.Emu8086.Mov` | src/main/java/Emu8086.java:122-143 | the new state and the outcome are those of the value-level `mov` |
| `Emulation.Emu8086.AddOperandsOf` | src/main/java/Emu8086.java:80-99 | the destination and the two values `add` reads |
| `Emulation.Emu8086.SetAddFlags` | src/main/java/Emu8086.java:103-106 | the four `setFlag` calls of `add`, changing nothing but the flags |
| `Emulation.Emu8086.Add` | src/main/java/Emu8086.java:71-112 | the new state and the outcome are those of the value-level `add` |

## Left out

- Stream plumbing is replaced by values. Reading the table through a
  `BufferedReader` becomes a sequence of lines. The `InputStream` of
  `decode` becomes a byte sequence and a cursor, where `read()` returning -1
  is the cursor at the end. The resource load of `8086.txt` and `main`'s file
  loop are I/O.
- Java exceptions are modelled as error values: `IOException`,
  `EOFException`, a `substring` past the end, an array index past a table,
  and a null operand. The exception class hierarchy is not modelled.
- `replaceAll("\\s+", "")` and `replaceAll(name, "")` are plain whitespace
  removal and literal deletion. The flag names hold no regular-expression
  metacharacters.
- Upper-casing covers the ASCII letters only; `Character.isWhitespace` is
  covered for the ASCII and control whitespace characters only.
- The contents of `Opcode`, `Op`, `OpcodeFlags`, `DecodeState` and `Address`
  are not part of this model. The mnemonic is its constant name, and
  `Opcode.valueOf` is a lookup in a set of declared names given as a
  parameter. The flags are the eleven constants `decode` switches on plus the
  others, by name. Their declaration order is a parameter.
- `DecodeState` holds the eight fields `decode` assigns; any other fields it
  has are not modelled.
- Rows of the secondary table that no line allocated are modelled as rows of
  empty entries. For `decode` the two are indistinguishable.
- The decode dispatch in `Emu8086.decode`, and the `cmp`, `sub`, `push`,
  `pop` and `jump` handlers, only print. So do `printTwoOperand`,
  `printRegisterChange` and the matchers' `toString`. All of them are left out.
- The `previousRegisterFile` snapshots in `mov` and `add` exist only for
  printing and are left out.
- `mov` and `add` take the decoded record as a parameter, where the source
  reads the emulator's `decodeState` field. The static parity table is held
  as a field of the emulator.
- `ByteBuffer`'s position and limit are not modelled. The code uses only
  absolute `get`/`put` and `getChar`/`putChar`, which ignore them.
- Decoding.Decoder.Decode: the cursor after a failed decode is not specified.
  The source has by then consumed an unspecified number of stream bytes.
- StreamDecoding.DecodeAt: its own contract only bounds the cursor. What it
  reads is stated by the DecoderProperties lemmas and by the method
  Decoding.Decoder.Decode.
- StreamDecoding.ApplyFlags: its own contract only bounds the cursor and the
  width. The routing and the immediates are stated by DecoderProperties.
- Emulation.EffectiveAddressExact: exact only for displacements in
  -128..65535, the range the decoder produces. Outside it, the sum wraps as
  a Java `int`, which Emulation.EffectiveAddressOf models.
- Emulation.BaseFollowsText: BP_DI adds BP and SI, as the code does. The
  lemma states this, rather than the BP and DI its text names.
