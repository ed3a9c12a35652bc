# Section manager and header-fix argument parsers, in Dafny

This project models two parts of a Game Boy toolchain written in Rust.

**The assembler's section manager** (`src/asm/sections.rs`, module `AsmSections` in
`asm_sections.dfy`):

- A table of named output sections, plus a stack of "active section" slots. This is the
  class `Sections`, whose fields `sections` (a map) and `stack` (a sequence) are
  updated in place by `AddSection` and `Extend`.
- The rules that decide whether re-declaring a section name is an error (`Redefine`,
  `Merge`).
- The attribute normaliser `NormalizedSectAttrs::try_new` (`TryNew`). It range-checks
  address, bank, alignment and alignment offset against a memory-region kind, then
  canonicalises them (`Canonicalise`).
- The emission engine `SectionHandleMut::extend`:
  - It is specified by the pure function `ExtendSpec` over the emitter `EmitAll`.
  - It is implemented by the loops `TotalWidth`, `PushItem` and `PushAll`, which are
    proved equal to those functions.
  - Constants are folded to little-endian bytes, and values that are not constant are
    recorded as relocations over zero placeholder bytes.
  - A virtual length keeps growing after the buffer stops being written.
  - The class invariant `Valid` includes `SectionData.Consistent`. That predicate says
    the buffer never exceeds the region, equals the virtual length until the first
    overflow, and that every relocation's placeholder bytes are still zero.
- `SectionHandle::try_get_pc` (`TryGetPc`).

**The header fixer's argument value parsers** (`src/fix/args.rs`, module `FixArgs` in
`fix_args.dfy`):

- `FixSpec::from_str`, a character loop over a flag byte (`FixSpecFromStr`). It is
  specified by `FixSpecOf`: in each fix/trash pair, the character that occurs last wins.
- `parse_u8` (`ParseU8`), including the standard `u8::from_str_radix` it relies on
  (`FromStrRadix`, `Accumulate`). These are tied to place-value notation (`PlaceValue`).
- `AsciiChar<N>::from_str` (`AsciiCharFromStr`). It copies the input into a zeroed array.
- `MBCType::valid_extensions` and `can_have_extension` (`ValidExtensions`, `CanHaveExtension`).
- `MBC::from_str` (`MbcFromStr`), a loop over the split extension list. It is specified by
  `MbcSpec`, which has these parts:
  - case-insensitive prefix matching against an ordered name table (`MatchMbcType`);
  - splitting on `+`, `_` and space (`Split`);
  - Unicode trimming (`Trim`);
  - folding the pieces into a flag set (`ExtensionsOf`).

`basics.dfy` (module `Basics`) holds `Option`, `Result` and the machine integer ranges.

## Model

| member | source | states |
|---|---|---|
| AsmSections.Sections.constructor | src/asm/sections.rs:30-39 | A new manager has no sections and exactly one stack slot, which is empty, so there is no active section. |
| AsmSections.Sections.ActiveHandle | src/asm/sections.rs:123-137 | The active section is absent exactly when the top slot is empty. Otherwise it is the top cursor with the section that cursor names, and that lookup never fails. |
| AsmSections.Sections.AddSection | src/asm/sections.rs:41-121 | A fresh name inserts an empty section with the given kind, modifier and attributes. It replaces the top slot with a cursor at offset 0 (no PC section, no union stack) and keeps the stack length. An existing name yields the redefinition outcome, never success, and leaves the map and the stack unchanged. The class invariant is preserved. |
| AsmSections.Redefine | src/asm/sections.rs:66-97 | A redefinition is never accepted, and the errors come in the source's order. A stored Normal section gives SectAlreadyDefined. Then a different modifier gives DifferentSectMod, then a different kind gives DifferentSectKind, then a Union of a data kind gives RomUnion, then a bank conflict gives DifferentBank. Otherwise it aborts at the unfinished code, and this happens exactly when all of those checks pass. |
| AsmSections.Merge | src/asm/sections.rs:474-488 | Merging fails exactly when both banks are set and differ, with DifferentBank carrying both banks. On success only the bank may change: a set current bank is kept, an unset one adopts the other's bank, and no bank appears from nowhere. |
| AsmSections.CheckAddress | src/asm/sections.rs:353-374 | An address is accepted exactly when it is a u16 inside [start, start + size) of the region (the wrapping subtraction against the size), and it is returned unchanged. A value outside u16 gives AddrOutOfRange with that value; a u16 outside the region gives AddrOutOfBounds with the address, the region start and its last address start + size - 1. |
| AsmSections.TryNew | src/asm/sections.rs:323-471 | In every accepted result: an address implies alignment 0. A non-zero alignment implies no address, an aligned region start and an offset below 2^alignment. A single-bank region forces that bank. Any bank lies in the region's bank range. Any address lies in the region, except the sentinel address 16 produced by alignment 16. The given values are kept: a given address is the result's address, a multi-bank region keeps the given bank (as u32) or none, the offset is the given one or 0, and an alignment below 16 without an address is kept as given. |
| AsmSections.Canonicalise | src/asm/sections.rs:427-458 | After range checking, the result is AlignMismatch exactly when an address's low alignment bits differ from the offset, and OverAligned exactly when, without an address, the region start is not aligned. An accepted result keeps the offset and the given address, with alignment 0. Without an address, alignment 16 becomes address 16 with alignment 0 and a smaller alignment is kept. The bank is the forced single bank, or else the given one. |
| AsmSections.AlignStage | src/asm/sections.rs:396-458 | After address and bank are lowered, the alignment and offset checks and the canonicalisation keep the given address, the given bank of a multi-bank region and the given offset (0 if absent), and produce the canonical shape. When the alignment and the offset both pass their range checks, the result is exactly Canonicalise of the lowered values, so it is accepted exactly when Canonicalise accepts. |
| AsmSections.AddressChecks | src/asm/sections.rs:353-374 | An evaluated address gives AddrOutOfRange exactly when it is outside 0..=65535. It gives AddrOutOfBounds exactly when it is in that range but outside the region. |
| AsmSections.FirstFailureWins | src/asm/sections.rs:353-458 | The checks run address, then bank, then alignment, then offset, the offset being checked against the given alignment or 0. The first failing attribute's error is the result, whatever the later attributes are. When all four pass, the result is exactly Canonicalise of the lowered values (the offset defaulting to 0), so with Canonicalise's own contract it is Ok exactly when neither AlignMismatch nor OverAligned applies. |
| AsmSections.NoAttributesAccepted | src/asm/sections.rs:353-458 | With no address, bank, alignment or offset, every check passes and the section is accepted: no address, alignment 0, offset 0, and the region's bank when it has only one. |
| AsmSections.CheckBank | src/asm/sections.rs:375-395 | A bank is accepted exactly when the region is banked and the bank, reinterpreted as u32, lies in the region's bank range, and the reinterpreted bank is returned. An unbanked region always gives Unbanked; a banked region with the bank outside its range gives BankOutOfRange with the reinterpreted bank and the region's first and last banks. |
| AsmSections.BankChecks | src/asm/sections.rs:375-395 | A bank gives Unbanked exactly when the region is not ROMX, VRAM, SRAM or WRAMX. It gives BankOutOfRange exactly when the region is banked and the bank, reinterpreted as u32, is outside the region's bank range. |
| AsmSections.AlignmentChecks | src/asm/sections.rs:396-409 | An alignment gives AlignOutOfRange exactly when it is outside 0..=16. |
| AsmSections.AlignOffsetChecks | src/asm/sections.rs:410-423 | With alignment a in range, an offset gives AlignOfsOutOfRange(o, 2^a) exactly when it is outside 0 <= o < 2^a. |
| AsmSections.ExplicitAddressAlignment | src/asm/sections.rs:427-439 | With an in-region address and alignment a > 0, the result is accepted exactly when the address's low a bits equal the offset. Otherwise it is AlignMismatch. On success the address is kept and the alignment is dropped to 0. |
| AsmSections.AlignmentWithoutAddress | src/asm/sections.rs:440-449 | Without an address, an alignment the region start does not satisfy gives OverAligned. Otherwise alignment 16 becomes address 16 with alignment 0, and a smaller alignment is kept with no address. |
| AsmSections.SingleBankAgrees | src/asm/sections.rs:452-458 | For a single-bank region, an accepted explicit bank equals the region's only bank, so the debug assertion holds. The result's bank is that bank. |
| AsmSections.TryGetPcValue | src/asm/sections.rs:215-219 | About TryGetPc, which models `try_get_pc`: the PC is absent exactly when the section has no fixed address. Otherwise it is the base plus the buffer length clamped to 65535, added modulo 2^16: it is the plain sum when that fits, and the sum minus 65536 when it wraps. For data shorter than 65536 bytes, the PC is below the base exactly when base plus the unclamped length reaches 65536. For longer data, the PC is base - 1, or 65535 for base 0. |
| AsmSections.Sections.Extend | src/asm/sections.rs:225-298 | ExtendSpec is the value-level model of `extend`. The new section record, the new top cursor and the result are exactly those of ExtendSpec for the active section and its cursor. Nothing else in the map or the stack changes, and the class invariant (including data length equal to virtual length while it fits) is preserved. |
| AsmSections.ExtendOutcome | src/asm/sections.rs:233-294 | A region without data gives NotCodeSection and changes nothing. Otherwise the virtual length grows by the batch width, saturating, whether or not the batch fits. If it fits, the buffer grows by exactly that width and keeps its old bytes. One relocation is appended per unresolved item, and both cursor offsets advance by the width. If it does not fit, buffer, patches and cursor are untouched and there are no warnings. |
| AsmSections.ExtendKeepsConsistent | src/asm/sections.rs:295 | With the cursor at the end of the buffer, extend keeps the section consistent and the cursor at the end. In particular the buffer length equals the virtual length whenever that fits the region, which is the debug_assert_eq after the loop. |
| AsmSections.VirtualLengthAcrossBatches | src/asm/sections.rs:243 | Over two batches, the virtual length grows by both widths, even when the first batch overflowed the region. |
| AsmSections.TotalWidth | src/asm/sections.rs:237-242 | The fold over the batch computes its total width: 1 per byte, the value kind's width per expression. This is the fold with an accumulator wide enough never to wrap. |
| AsmSections.TotalWidthWrapping | src/asm/sections.rs:237-242 | The fold with a u8 or u16 accumulator, as a release build runs it, computes the total width modulo 2^8 or 2^16. |
| AsmSections.WrappedWidthBreaksConsistency | src/asm/sections.rs:243-295 | With the wrapped sum, a batch whose width equals the accumulator's range leaves the virtual length unchanged but is written in full. The buffer then outgrows the virtual length, the section is no longer consistent and the `debug_assert_eq!` fails. |
| AsmSections.LongByteRunBreaksConsistency | src/asm/sections.rs:237-295 | With a u8 accumulator, 256 literal bytes extended into a fresh data section leave the virtual length at 0 while the buffer holds 256 bytes. |
| AsmSections.PushItem | src/asm/sections.rs:247-293 | One pass of the push loop produces exactly the emitter step EmitItem (bytes, relocation, warning, both offsets). |
| AsmSections.PushAll | src/asm/sections.rs:246-294 | The push loop over the batch produces exactly EmitAll of the batch. |
| AsmSections.EmitAllGrowth | src/asm/sections.rs:246-294 | A batch appends exactly its total width to the buffer and keeps the old bytes. It appends exactly one relocation per unresolved item and keeps the old ones. It advances both offsets by the width and only appends warnings. |
| AsmSections.EmitAllKeepsPlaceholders | src/asm/sections.rs:273-285 | With the cursor at the end of the buffer, every relocation's width bytes stay inside the buffer and zero after a batch, including the relocations the batch adds. |
| AsmSections.EmitAllAppend | src/asm/sections.rs:246-294 | Emitting a concatenation equals emitting its parts in turn. Widths and unresolved counts add up. |
| AsmSections.EmitAllRecordsAt | src/asm/sections.rs:273-283 | An unresolved item records its relocation at the next relocation index. The relocation's offset and PC offset are the cursor values before that item: the start offsets plus the width of the items before it. |
| AsmSections.EmitConstant | src/asm/sections.rs:254-287 | A constant writes width bytes whose little-endian value is the constant modulo 256^width, and records no relocation. It warns with level 2 when the truncation is loose, level 1 when it is strict and not at all when the value is in range, reporting width*8 bits. |
| AsmSections.EmitUnresolved | src/asm/sections.rs:273-287 | An item that is not constant appends the relocation at the current offsets and width zero bytes, advances both offsets by the width and adds no warning. |
| AsmSections.LeBytesLow | src/asm/sections.rs:271-285 | The first w bytes of an i32's little-endian encoding are its value modulo 256^w, as two's complement. |
| FixArgs.FixSpecFromStr | src/fix/args.rs:129-167 | The character loop (clear the partner flag, set its own, ignore other characters) computes FixSpecOf of the whole string and never fails. FixSpecOf is the independent last-choice definition characterised by LastChoiceMeaning. |
| FixArgs.LastChoiceMeaning | src/fix/args.rs:131-153 | About FixSpecOf: for each pair the selected flag is Fix exactly when the fix character occurs and neither pair character comes after it, and Trash symmetrically. It is Neither exactly when neither character occurs. |
| FixArgs.FixSpecPairsExclusive | src/fix/args.rs:114-167 | No result ever holds both flags of a pair, and none holds the two low bits (the result is within 0xFC). |
| FixArgs.FixSpecIdempotent | src/fix/args.rs:131-165 | Repeating the string does not change the result. |
| FixArgs.FixSpecIgnoresUnknown | src/fix/args.rs:151-153 | Inserting a character outside lLhHgG anywhere leaves the result unchanged. |
| FixArgs.AccumulateMeaning | src/fix/args.rs:204 | The digit loop of the standard parser succeeds exactly when every character is a digit of the radix and acc*radix^n plus the place value fits in a byte. That value is then the result. |
| FixArgs.FromStrRadixMeaning | src/fix/args.rs:204 | `u8::from_str_radix` succeeds exactly on a non-empty digit string, after an optional '+', whose place value is at most 255, and it returns that value. The Empty error occurs exactly on the empty string. |
| FixArgs.ParseU8Meaning | src/fix/args.rs:189-205 | About ParseU8, which models `parse_u8`: radix 16 is chosen exactly for a 0x or 0X prefix, and radix 2 exactly for 0b or 0B. The result is Ok exactly when the rest is a non-empty numeral of that radix with value at most 255, and that value is returned. |
| FixArgs.ParseU8Empty | src/fix/args.rs:189-205 | The empty-string error occurs exactly for "", "0x", "0X", "0b" and "0B". |
| FixArgs.AsciiCharFromStr | src/fix/args.rs:176-186 | The result is Ok exactly when the input is ASCII and at most N characters long. It is then N bytes: the input's codes followed by zeros. Read back up to the first NUL, it gives the input again when the input contains no NUL. Otherwise the error names the limit N. |
| FixArgs.CanHaveExtension | src/fix/args.rs:232-234 | An extension set is allowed exactly when it has no flag outside the mapper's valid set. |
| FixArgs.ExtensionTable | src/fix/args.rs:236-261 | MBC6, POCKET_CAMERA, BANDAI_TAMA5 and HUC3 allow nothing. TIMER is allowed only for MBC3, SENSOR only for MBC7 and MULTIRUMBLE only for TPP1. RUMBLE is allowed exactly for MBC5, MBC7 and TPP1. BATTERY is allowed wherever anything is, and RAM likewise except for MBC2. |
| FixArgs.MatchMbcTypeMeaning | src/fix/args.rs:311-340 | No type matches exactly when no table name is a case-insensitive prefix. Otherwise the first such name in table order decides the type, and the rest of the argument follows that name. |
| FixArgs.RomOnlyBeforeRom | src/fix/args.rs:327 | Because ROM_ONLY is listed before ROM, "rom_only+ram" parses as ROM with RAM, both with the table as written (SOURCE_MBC_NAMES) and with the corrected one. |
| FixArgs.SplitLosesOnlySeparators | src/fix/args.rs:343 | Splitting on '+', '_' and ' ' gives one more piece than there are separators. The pieces joined together are the input without its separators. |
| FixArgs.SplitRejoins | src/fix/args.rs:343 | Putting the input's separators back between consecutive pieces, in order, gives back the input, so piece i is exactly the text between separator i-1 and separator i. |
| FixArgs.SplitUnique | src/fix/args.rs:343 | Any separator-free pieces that rejoin to the input with its separators are the split's pieces: the split is the only cut at every separator. |
| FixArgs.Split | src/fix/args.rs:343 | There is always at least one piece, and no piece contains a separator. |
| FixArgs.TrimMeaning | src/fix/args.rs:344 | Trimming returns a contiguous slice of the piece. Everything before and after the slice is white space, and the slice neither starts nor ends with white space. |
| FixArgs.TrimStartMeaning | src/fix/args.rs:344 | Leading white space, and nothing else, is removed. |
| FixArgs.TrimEndMeaning | src/fix/args.rs:344 | Trailing white space, and nothing else, is removed. |
| FixArgs.ExtensionsAccepted | src/fix/args.rs:342-379 | The extension list is accepted exactly when every trimmed piece is blank or names an extension the mapper can have. The accepted set is then allowed for the mapper and has no low bits. |
| FixArgs.ExtensionsUnion | src/fix/args.rs:360 | An accepted set contains a flag exactly when some piece names it. |
| FixArgs.ExtensionsFirstFailure | src/fix/args.rs:349-366 | The first unacceptable piece decides. An unknown name is reported as InvalidExtension with the trimmed piece, and a known name the mapper cannot have ends the program. |
| FixArgs.MbcFromStr | src/fix/args.rs:306-382 | The parser's loop over the split pieces computes MbcSpec for the name table it is given, the table as written or the corrected one. |
| FixArgs.MbcAccepted | src/fix/args.rs:306-382 | An accepted argument's type is the first name-table match, and its extensions are all allowed for that type. |
| FixArgs.Tpp1VersionRejected | src/fix/args.rs:343-366 | "TPP1_1.0" is rejected with InvalidExtension("1.0"), because '_' is a separator, both with the table as written (SOURCE_MBC_NAMES) and with the corrected one. |
| FixArgs.InsertedEntryNeutral | src/fix/args.rs:325-340 | Inserting an entry anywhere in the name table leaves the parse of every argument that the new name does not prefix unchanged. So the corrected table differs from the one as written only on arguments starting with "MBC7". |
| FixArgs.SourceNamesOmitMbc7 | src/fix/args.rs:325-340 | With the name table as written, no argument ever parses as MBC7. The help text's "MBC7+SENSOR+RUMBLE+RAM+BATTERY" is rejected as an invalid mapper type. |
| FixArgs.CorrectedNamesCoverMbc7 | src/fix/args.rs:213-229 | The corrected table has an entry for every mapper type, and it reads the MBC7 argument as MBC7 followed by its extension list. |
| FixArgs.CorrectedAcceptsMbc7Argument | src/fix/args.rs:289 | With the corrected table, "MBC7+SENSOR+RUMBLE+RAM+BATTERY" parses as MBC7 with SENSOR, RUMBLE, RAM and BATTERY. |

## Left out

- **Assembler: interning, diagnostics and unused state**
  - The string interner is left out: section names are the map keys.
  - Locations, diagnostic info and file-stack spans are opaque values that are carried and never inspected.
  - Pushing and popping section scopes is left out, because nothing does so beyond the single initial slot.
  - `label_scope` and the union stack are carried but never changed.
- **Assembler: collaborators**
  - `Kind` is a value record holding the answers of its methods (`size`, `start_addr`, the bank range and `has_data`). Kind equality compares the region tag.
  - `RelocKind` has an opaque code and a width of at most 4. `RelocKind::is_in_range` is a function parameter.
  - `Expression::try_eval` and `Rpn::try_get_constant` are inputs that are already evaluated.
  - The `warn` callback is replaced by returning the warnings in order.
- **Assembler: panics**
  - The `todo!()` success paths of union and fragment redefinition (`merge_union`, `concat_fragments`, the fragment offset) are the outcome `Aborted`, with the state unchanged. The process panics there, so the bank that `merge` may already have written is never observed.
  - No address merging or fragment offset is invented.
- AsmSections.Merge: written as a function returning the merged attributes instead of assigning `self.bank` in place. The attributes are a plain value record inside the section.
- AsmSections.TryNew: requires a region of non-zero size inside the 16-bit address space. Otherwise the error payload `start_addr + (size - 1)` would itself overflow.
- AsmSections.TotalWidth: the accumulator has the integer type of `RelocKind::width`, whose definition is not part of this model. `usize::from(len)` admits `u8`, `u16` or `usize`. `TotalWidth` is the fold without wrap-around (a `usize` sum of widths at most 4 does not wrap in practice), and `TotalWidthWrapping` is the release-build fold for `u8` or `u16` (see Findings). The debug-build overflow panic is not modelled. `ExtendSpec` uses the exact sum, which is the corrected behaviour.
- AsmSections.Canonicalise: the mask `u16::MAX >> (16 - a)` is written as the remainder modulo 2^a, which is the same for alignments 1 to 16.
- **Header fixer: plumbing and output**
  - The command-line structure and its derive are left out, and so are `MBC::print_help` and `src/fix/main.rs`, which hold no parsing logic.
  - The warnings printed by `FixSpec::from_str` are left out: they do not change its result.
  - Error messages are modelled as the `ArgError` values they are built from, except `parse_u8`, whose error texts are the standard ones.
- FixArgs.MbcFromStr: the two `process::exit(0)` paths ("help", and an extension the mapper cannot have) are the outcome `ExitsProcess`.
- FixArgs.MbcFromStr: the name table is a parameter. `SOURCE_MBC_NAMES` is the table as written, and `MBC_NAMES` is the corrected one with the MBC7 entry (see Findings).
- **Behaviour of the code worth noting**
  - `try_get_pc` adds the clamped length with wrap-around at 2^16, not saturation.
  - Alignment 16 without an address yields address 16.
  - The help text lists "TPP1_1.0" and similar arguments, which the parser rejects because '_' splits them. `Tpp1VersionRejected` proves this for the table as written and for the corrected one.

## Findings

| source | as written | input that shows it | evidently intended | confidence | as-written member | corrected member |
|---|---|---|---|---|---|---|
| src/fix/args.rs:325-340 | The mapper-name table has no MBC7 entry, although `MBCType::MBC7`, its valid extensions and the help text's "MBC7+SENSOR+RUMBLE+RAM+BATTERY ($22)" all exist, so MBC7 can never be parsed | "MBC7+SENSOR+RUMBLE+RAM+BATTERY" is rejected as "Invalid MBC type" | The argument is read as MBC7 with SENSOR, RUMBLE, RAM and BATTERY | medium; not executed | FixArgs.SourceNamesOmitMbc7 | FixArgs.CorrectedAcceptsMbc7Argument |
| src/asm/sections.rs:237-242 | If `RelocKind::width` returns `u8` or `u16`, the fold sums the batch's width in that type. A release build wraps, so the virtual length misses a multiple of 2^8 or 2^16 while the buffer still receives every byte, and the `debug_assert_eq!` at line 295 fails. A debug build panics instead | One `extend` call with 256 literal bytes into a fresh data section, with a `u8` width type | The virtual length grows by the batch's full width and equals the buffer length while it fits | medium, depends on the width type; not executed | AsmSections.LongByteRunBreaksConsistency | AsmSections.ExtendKeepsConsistent |
