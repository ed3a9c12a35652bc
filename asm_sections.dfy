/** The assembler's section manager: the table of named output sections, the stack of
    "active section" slots, the redefinition rules, the attribute normaliser and the
    emission engine that appends bytes and records relocations. */
module AsmSections {
  import opened Basics

  // ---------------------------------------------------------------------------
  // Collaborators, seen only through what this code asks of them
  // ---------------------------------------------------------------------------

  /** A source position; diagnostics only, carried and never inspected. */
  datatype Location = Location(id: nat)
  datatype Span = Span(begin: Location, end: Location)

  /** The memory regions a section can be declared in. */
  datatype Region = Rom0 | Romx | Vram | Sram | Wram0 | Wramx | Oam | Hram

  /** A memory-region kind, together with the answers its methods give: `size`,
      `start_addr`, the inclusive range `banks` and `has_data`. */
  datatype Kind = Kind(region: Region, size: u16, startAddr: u16, firstBank: u32, lastBank: u32, hasData: bool)
  {
    /** What the normaliser relies on: a non-empty region inside the 16-bit address space
        (so that `start_addr + (size - 1)` neither underflows nor overflows). */
    predicate WellFormed()
    {
      1 <= size && startAddr + size <= 0x1_0000
    }

    /** The kinds for which a BANK attribute may be given. */
    predicate Banked()
    {
      region == Romx || region == Vram || region == Sram || region == Wramx
    }
  }

  datatype Modifier = Normal | Union | Fragment

  /** An expression after `Expression::try_eval`: its constant value, or the evaluator's
      own failure. */
  datatype Evaluation = Evaluated(value: i32) | Unevaluable(reason: string)

  /** The encoded expression handed to the linker; opaque here. */
  datatype Rpn = Rpn(encoded: seq<u8>)

  /** `RelocKind::width()`: at most 4, since the code slices four-byte buffers with it. */
  type Width = w: nat | w <= 4

  /** A value kind: an opaque identity and its byte width. `is_in_range` is passed to
      `Extend` as a function. */
  datatype RelocKind = RelocKind(code: nat, width: Width)

  datatype TruncationLevel = NoTruncation | Loose | Strict

  /** An item of a data directive: a literal byte, or an expression whose constant value
      (`Rpn::try_get_constant`) is known or not. */
  datatype ByteOrExpr =
    | Byte(byte: u8)
    | Expr(span: Span, constant: Option<i32>, kind: RelocKind, rpn: Rpn)

  datatype Warning = TruncationWarning(span: Span, level: nat, width: nat)

  // ---------------------------------------------------------------------------
  // Records
  // ---------------------------------------------------------------------------

  type Alignment = a: nat | a <= 16

  datatype NormalizedSectAttrs = NormalizedSectAttrs(address: Option<u16>, bank: Option<u32>, alignment: Alignment, alignOffset: u16)

  datatype AsmErrorKind =
    | SectAlreadyDefined(name: string)
    | DifferentSectMod(name: string, previousModifier: Modifier)
    | DifferentSectKind(name: string, previousKind: Kind)
    | RomUnion(kind: Kind)
    | NotCodeSection(kind: Kind)
    | AddrOutOfRange(value: i32)
    | AddrOutOfBounds(addr: u16, firstAddr: u16, lastAddr: u16)
    | Unbanked(kind: Kind)
    | BankOutOfRange(bank: u32, first: u32, last: u32)
    | AlignOutOfRange(value: i32)
    | AlignOfsOutOfRange(value: i32, limit: nat)
    | AlignMismatch(addr: u16, alignment: Alignment, offset: u16)
    | OverAligned(alignment: Alignment, kind: Kind)
    | DifferentBank(name: string, current: u32, requested: u32)
    | EvalError(reason: string)

  /** One deferred patch: where in the owning section's data it applies, which section and
      offset the program counter was relative to, and what to compute. */
  datatype Relocation = Relocation(definition: Span, offset: nat, pcSection: Option<string>, pcOffset: nat, kind: RelocKind, rpn: Rpn)

  datatype UnionBlock = UnionBlock(startOffset: nat, len: nat)

  /** A cursor on the section being emitted into. */
  datatype ActiveSection = ActiveSection(
    name: string,
    offset: nat,
    pcSection: Option<string>,
    pcOffset: nat,
    labelScope: Option<string>,
    unionStack: seq<UnionBlock>)

  function NewActiveSection(name: string, offset: nat): ActiveSection
  {
    ActiveSection(name, offset, None, 0, None, [])
  }

  /** Every relocation covers `width` bytes inside the buffer, and those bytes are still the
      zero placeholders written for it. */
  ghost predicate PlaceholdersIntact(data: seq<u8>, patches: seq<Relocation>)
  {
    forall p :: p in patches ==>
      && p.offset + p.kind.width <= |data|
      && forall k :: p.offset <= k < p.offset + p.kind.width ==> data[k] == 0
  }

  datatype SectionData = SectionData(
    kind: Kind,
    modifier: Modifier,
    definition: Span,
    attrs: NormalizedSectAttrs,
    patches: seq<Relocation>,
    data: seq<u8>,
    lenVirt: nat)
  {
    /** The buffer is only written while the virtual length fits the kind, so it never
        exceeds the kind's size and equals the virtual length until the first overflow. */
    ghost predicate Consistent()
    {
      && lenVirt <= USIZE_MAX
      && |data| <= lenVirt
      && |data| <= kind.size
      && (lenVirt <= kind.size ==> |data| == lenVirt)
      && (!kind.hasData ==> lenVirt == 0 && data == [] && patches == [])
      && PlaceholdersIntact(data, patches)
    }
  }

  function NewSectionData(kind: Kind, modifier: Modifier, definition: Span, attrs: NormalizedSectAttrs): SectionData
  {
    SectionData(kind, modifier, definition, attrs, [], [], 0)
  }

  /** A read or write handle on the active section: the top cursor and its section. */
  datatype SectionHandle = SectionHandle(cursor: ActiveSection, section: SectionData)

  // ---------------------------------------------------------------------------
  // Attribute normaliser (`NormalizedSectAttrs::try_new`)
  // ---------------------------------------------------------------------------

  /** The address must be a `u16`, and `addr - start_addr` (wrapping) below the size. */
  function CheckAddress(kind: Kind, addr: i32): (r: Result<u16, AsmErrorKind>)
    requires kind.WellFormed()
    ensures r.Ok? <==> 0 <= addr < 0x1_0000 && kind.startAddr <= addr < kind.startAddr + kind.size
    ensures r.Ok? ==> r.value == addr
    ensures !(0 <= addr < 0x1_0000) ==> r == Err(AddrOutOfRange(addr))
    ensures 0 <= addr < 0x1_0000 && r.Err? ==>
      r.error == AddrOutOfBounds(addr, kind.startAddr, kind.startAddr + (kind.size - 1))
  {
    if !(0 <= addr < 0x1_0000) then Err(AddrOutOfRange(addr))
    else if (addr - kind.startAddr) % 0x1_0000 < kind.size then Ok(addr)
    else Err(AddrOutOfBounds(addr, kind.startAddr, kind.startAddr + (kind.size - 1)))
  }

  /** Banks are legal only for banked kinds; the value is reinterpreted as a `u32`. */
  function CheckBank(kind: Kind, bank: i32): (r: Result<u32, AsmErrorKind>)
    ensures !kind.Banked() ==> r == Err(Unbanked(kind))
    ensures r.Ok? <==> kind.Banked() && kind.firstBank <= bank % 0x1_0000_0000 <= kind.lastBank
    ensures r.Ok? ==> r.value == bank % 0x1_0000_0000
    ensures kind.Banked() && r.Err? ==>
      r.error == BankOutOfRange(bank % 0x1_0000_0000, kind.firstBank, kind.lastBank)
  {
    if !kind.Banked() then Err(Unbanked(kind))
    else
      var b := bank % 0x1_0000_0000;
      if kind.firstBank <= b <= kind.lastBank then Ok(b)
      else Err(BankOutOfRange(b, kind.firstBank, kind.lastBank))
  }

  function CheckAlignment(alignment: i32): (r: Result<Alignment, AsmErrorKind>)
    ensures r.Ok? <==> 0 <= alignment <= 16
    ensures r.Ok? ==> r.value == alignment
    ensures r.Err? ==> r.error == AlignOutOfRange(alignment)
  {
    if 0 <= alignment <= 16 then Ok(alignment) else Err(AlignOutOfRange(alignment))
  }

  function CheckAlignOffset(alignment: Alignment, offset: i32): (r: Result<u16, AsmErrorKind>)
    ensures r.Ok? <==> 0 <= offset < Pow2(alignment)
    ensures r.Ok? ==> r.value == offset
    ensures r.Err? ==> r.error == AlignOfsOutOfRange(offset, Pow2(alignment))
  {
    Pow2UpTo16(alignment);
    if 0 <= offset < Pow2(alignment) then Ok(offset)
    else Err(AlignOfsOutOfRange(offset, Pow2(alignment)))
  }

  lemma {:induction false} Pow2UpTo16(a: nat)
    requires a <= 16
    ensures Pow2(a) <= 0x1_0000
    decreases 16 - a
  {
    if a == 16 {
      assert Pow2(1) == 2 && Pow2(2) == 4 && Pow2(3) == 8 && Pow2(4) == 16;
      assert Pow2(5) == 32 && Pow2(6) == 64 && Pow2(7) == 128 && Pow2(8) == 256;
      assert Pow2(9) == 512 && Pow2(10) == 1024 && Pow2(11) == 2048 && Pow2(12) == 4096;
      assert Pow2(13) == 8192 && Pow2(14) == 16384 && Pow2(15) == 32768 && Pow2(16) == 0x1_0000;
    } else {
      Pow2UpTo16(a + 1);
    }
  }

  /** `eval` applied to each raw attribute: absent stays absent, an expression that does
      not evaluate fails, and a value is range-checked. */
  function LowerAddress(kind: Kind, raw: Option<Evaluation>): (r: Result<Option<u16>, AsmErrorKind>)
    requires kind.WellFormed()
    ensures raw.None? ==> r == Ok(None)
    ensures r.Ok? && raw.Some? ==>
      && raw.value.Evaluated? && r.value.Some? && r.value.value == raw.value.value
      && kind.startAddr <= r.value.value < kind.startAddr + kind.size
  {
    match raw
    case None => Ok(None)
    case Some(Unevaluable(reason)) => Err(EvalError(reason))
    case Some(Evaluated(v)) =>
      match CheckAddress(kind, v)
      case Ok(a) => Ok(Some(a))
      case Err(e) => Err(e)
  }

  function LowerBank(kind: Kind, raw: Option<Evaluation>): (r: Result<Option<u32>, AsmErrorKind>)
    ensures raw.None? ==> r == Ok(None)
    ensures r.Ok? && raw.Some? ==>
      && raw.value.Evaluated? && r.value.Some? && r.value.value == raw.value.value % 0x1_0000_0000
      && kind.firstBank <= r.value.value <= kind.lastBank
  {
    match raw
    case None => Ok(None)
    case Some(Unevaluable(reason)) => Err(EvalError(reason))
    case Some(Evaluated(v)) =>
      match CheckBank(kind, v)
      case Ok(b) => Ok(Some(b))
      case Err(e) => Err(e)
  }

  function LowerAlignment(raw: Option<Evaluation>): (r: Result<Option<Alignment>, AsmErrorKind>)
    ensures raw.None? ==> r == Ok(None)
    ensures r.Ok? && raw.Some? ==> raw.value.Evaluated? && r.value.Some? && r.value.value == raw.value.value
  {
    match raw
    case None => Ok(None)
    case Some(Unevaluable(reason)) => Err(EvalError(reason))
    case Some(Evaluated(v)) =>
      match CheckAlignment(v)
      case Ok(a) => Ok(Some(a))
      case Err(e) => Err(e)
  }

  function LowerAlignOffset(alignment: Alignment, raw: Option<Evaluation>): (r: Result<Option<u16>, AsmErrorKind>)
    ensures raw.None? ==> r == Ok(None)
    ensures r.Ok? && raw.Some? ==>
      && raw.value.Evaluated? && r.value.Some? && r.value.value == raw.value.value
      && r.value.value < Pow2(alignment)
  {
    match raw
    case None => Ok(None)
    case Some(Unevaluable(reason)) => Err(EvalError(reason))
    case Some(Evaluated(v)) =>
      match CheckAlignOffset(alignment, v)
      case Ok(o) => Ok(Some(o))
      case Err(e) => Err(e)
  }

  /** The checks that follow range checking. The mask `u16::MAX >> (16 - a)` is 2^a - 1, so
      `x & mask` is `x % 2^a`. */
  function Canonicalise(kind: Kind, address: Option<u16>, bank: Option<u32>, alignment: Alignment, alignOffset: u16): (r: Result<NormalizedSectAttrs, AsmErrorKind>)
    requires alignment != 0 ==> alignOffset < Pow2(alignment)
    ensures r.Ok? && r.value.address.Some? ==> r.value.alignment == 0
    ensures r.Ok? && r.value.alignment != 0 ==>
      && r.value.address.None?
      && kind.startAddr % Pow2(r.value.alignment) == 0
      && r.value.alignOffset < Pow2(r.value.alignment)
    ensures r.Ok? && kind.firstBank == kind.lastBank ==> r.value.bank == Some(kind.firstBank)
    ensures r.Ok? && kind.firstBank != kind.lastBank ==> r.value.bank == bank
    ensures r.Ok? && r.value.address.Some? ==>
      address == r.value.address || (address.None? && alignment == 16 && r.value.address == Some(16))
    ensures r.Err? <==>
      && alignment != 0
      && (|| (address.Some? && address.value % Pow2(alignment) != alignOffset)
          || (address.None? && kind.startAddr % Pow2(alignment) != 0))
    ensures r.Err? && address.Some? ==> r.error == AlignMismatch(address.value, alignment, alignOffset)
    ensures r.Err? && address.None? ==> r.error == OverAligned(alignment, kind)
    ensures r.Ok? ==> r.value.alignOffset == alignOffset
    ensures r.Ok? && address.Some? ==> r.value.address == address && r.value.alignment == 0
    ensures r.Ok? && address.None? && alignment < 16 ==> r.value.address.None? && r.value.alignment == alignment
    ensures r.Ok? && address.None? && alignment == 16 ==> r.value.address == Some(16) && r.value.alignment == 0
  {
    if alignment != 0 && address.Some? && address.value % Pow2(alignment) != alignOffset then
      Err(AlignMismatch(address.value, alignment, alignOffset))
    else if alignment != 0 && address.None? && kind.startAddr % Pow2(alignment) != 0 then
      Err(OverAligned(alignment, kind))
    else
      var (address', alignment') :=
        if alignment == 0 || address.Some? then (address, 0)
        else if alignment == 16 then (Some(16), 0)
        else (None, alignment);
      var bank' := if kind.firstBank == kind.lastBank then Some(kind.firstBank) else bank;
      Ok(NormalizedSectAttrs(address', bank', alignment', alignOffset))
  }

  /** The alignment and offset stages of `try_new` and the checks after them, once address
      and bank have been lowered. */
  function AlignStage(kind: Kind, addr: Option<u16>, bk: Option<u32>, alignment: Option<Evaluation>, offset: Option<Evaluation>): (r: Result<NormalizedSectAttrs, AsmErrorKind>)
    ensures r.Ok? && r.value.address.Some? ==> r.value.alignment == 0
    ensures r.Ok? && r.value.alignment != 0 ==>
      && r.value.address.None?
      && kind.startAddr % Pow2(r.value.alignment) == 0
      && r.value.alignOffset < Pow2(r.value.alignment)
    ensures r.Ok? && kind.firstBank == kind.lastBank ==> r.value.bank == Some(kind.firstBank)
    ensures r.Ok? && kind.firstBank != kind.lastBank ==> r.value.bank == bk
    ensures r.Ok? && addr.Some? ==> r.value.address == addr
    ensures r.Ok? && addr.None? && r.value.address.Some? ==>
      r.value.address == Some(16) && alignment == Some(Evaluated(16))
    ensures r.Ok? && offset.None? ==> r.value.alignOffset == 0
    ensures r.Ok? && offset.Some? ==> offset.value.Evaluated? && r.value.alignOffset == offset.value.value
    ensures r.Ok? && alignment.None? ==> r.value.alignment == 0
    ensures r.Ok? && addr.None? && alignment.Some? ==>
      && alignment.value.Evaluated?
      && (alignment.value.value < 16 ==> r.value.alignment == alignment.value.value)
    ensures LowerAlignment(alignment).Ok? ==>
      var al := LowerAlignment(alignment).value;
      var align := if al.Some? then al.value else 0;
      LowerAlignOffset(align, offset).Ok? ==>
        var ofs := LowerAlignOffset(align, offset).value;
        && (align != 0 ==> (if ofs.Some? then ofs.value else 0) < Pow2(align))
        && r == Canonicalise(kind, addr, bk, align, if ofs.Some? then ofs.value else 0)
  {
    match LowerAlignment(alignment)
    case Err(e) => Err(e)
    case Ok(al) =>
      var align := if al.Some? then al.value else 0;
      match LowerAlignOffset(align, offset)
      case Err(e) => Err(e)
      case Ok(ofs) =>
        Canonicalise(kind, addr, bk, align, if ofs.Some? then ofs.value else 0)
  }

  function TryNew(kind: Kind, address: Option<Evaluation>, bank: Option<Evaluation>, alignment: Option<Evaluation>, offset: Option<Evaluation>): (r: Result<NormalizedSectAttrs, AsmErrorKind>)
    requires kind.WellFormed()
    ensures r.Ok? && r.value.address.Some? ==> r.value.alignment == 0
    ensures r.Ok? && r.value.alignment != 0 ==>
      && r.value.address.None?
      && kind.startAddr % Pow2(r.value.alignment) == 0
      && r.value.alignOffset < Pow2(r.value.alignment)
    ensures r.Ok? && kind.firstBank == kind.lastBank ==> r.value.bank == Some(kind.firstBank)
    ensures r.Ok? && r.value.bank.Some? ==> kind.firstBank <= r.value.bank.value <= kind.lastBank
    ensures r.Ok? && r.value.address.Some? ==>
      || kind.startAddr <= r.value.address.value < kind.startAddr + kind.size
      || (r.value.address == Some(16) && address.None? && alignment == Some(Evaluated(16)))
    ensures r.Ok? && address.Some? ==> address.value.Evaluated? && r.value.address == Some(address.value.value)
    ensures r.Ok? && kind.firstBank != kind.lastBank && bank.None? ==> r.value.bank.None?
    ensures r.Ok? && kind.firstBank != kind.lastBank && bank.Some? ==>
      bank.value.Evaluated? && r.value.bank == Some(bank.value.value % 0x1_0000_0000)
    ensures r.Ok? && offset.None? ==> r.value.alignOffset == 0
    ensures r.Ok? && offset.Some? ==> offset.value.Evaluated? && r.value.alignOffset == offset.value.value
    ensures r.Ok? && alignment.None? ==> r.value.alignment == 0
    ensures r.Ok? && address.None? && alignment.Some? ==>
      && alignment.value.Evaluated?
      && (alignment.value.value < 16 ==> r.value.alignment == alignment.value.value)
  {
    match LowerAddress(kind, address)
    case Err(e) => Err(e)
    case Ok(addr) =>
      match LowerBank(kind, bank)
      case Err(e) => Err(e)
      case Ok(bk) => AlignStage(kind, addr, bk, alignment, offset)
  }

  /** Address range checks, both directions: out of `u16` range, and outside the region. */
  lemma AddressChecks(kind: Kind, v: i32, bank: Option<Evaluation>, alignment: Option<Evaluation>, offset: Option<Evaluation>)
    requires kind.WellFormed()
    ensures var r := TryNew(kind, Some(Evaluated(v)), bank, alignment, offset);
      && (r == Err(AddrOutOfRange(v)) <==> !(0 <= v < 0x1_0000))
      && (r.Err? && r.error.AddrOutOfBounds? <==> 0 <= v < 0x1_0000 && !(kind.startAddr <= v < kind.startAddr + kind.size))
  {
  }

  /** The checks run in the order address, bank, alignment, offset: the first failure is
      the result, whatever the later attributes are. The offset is checked against the
      alignment given, or against 0 when none is. */
  lemma FirstFailureWins(kind: Kind, address: Option<Evaluation>, bank: Option<Evaluation>, alignment: Option<Evaluation>, offset: Option<Evaluation>)
    requires kind.WellFormed()
    ensures var r := TryNew(kind, address, bank, alignment, offset);
      && (LowerAddress(kind, address).Err? ==> r == Err(LowerAddress(kind, address).error))
      && (LowerAddress(kind, address).Ok? && LowerBank(kind, bank).Err? ==>
            r == Err(LowerBank(kind, bank).error))
      && (LowerAddress(kind, address).Ok? && LowerBank(kind, bank).Ok? && LowerAlignment(alignment).Err? ==>
            r == Err(LowerAlignment(alignment).error))
      && (LowerAddress(kind, address).Ok? && LowerBank(kind, bank).Ok? && LowerAlignment(alignment).Ok? ==>
            var al := LowerAlignment(alignment).value;
            var align := if al.Some? then al.value else 0;
            LowerAlignOffset(align, offset).Err? ==> r == Err(LowerAlignOffset(align, offset).error))
      && (LowerAddress(kind, address).Ok? && LowerBank(kind, bank).Ok? && LowerAlignment(alignment).Ok? ==>
            var al := LowerAlignment(alignment).value;
            var align := if al.Some? then al.value else 0;
            LowerAlignOffset(align, offset).Ok? ==>
              var ofs := LowerAlignOffset(align, offset).value;
              && (align != 0 ==> (if ofs.Some? then ofs.value else 0) < Pow2(align))
              && r == Canonicalise(kind, LowerAddress(kind, address).value, LowerBank(kind, bank).value,
                                   align, if ofs.Some? then ofs.value else 0))
  {
  }

  /** A section with no attributes is always accepted: floating, unaligned, and in the
      region's only bank when it has just one. */
  lemma NoAttributesAccepted(kind: Kind)
    requires kind.WellFormed()
    ensures TryNew(kind, None, None, None, None)
      == Ok(NormalizedSectAttrs(None, if kind.firstBank == kind.lastBank then Some(kind.firstBank) else None, 0, 0))
  {
    FirstFailureWins(kind, None, None, None, None);
  }

  /** Bank checks: a bank on an unbanked kind, and a bank outside the kind's range. */
  lemma BankChecks(kind: Kind, b: i32, alignment: Option<Evaluation>, offset: Option<Evaluation>)
    requires kind.WellFormed()
    ensures var r := TryNew(kind, None, Some(Evaluated(b)), alignment, offset);
      && (r == Err(Unbanked(kind)) <==> !kind.Banked())
      && (r.Err? && r.error.BankOutOfRange? <==>
            kind.Banked() && !(kind.firstBank <= b % 0x1_0000_0000 <= kind.lastBank))
  {
  }

  /** Alignment must lie in 0..=16. */
  lemma AlignmentChecks(kind: Kind, a: i32)
    requires kind.WellFormed()
    ensures TryNew(kind, None, None, Some(Evaluated(a)), None) == Err(AlignOutOfRange(a)) <==> !(0 <= a <= 16)
  {
    assert LowerAddress(kind, None) == Ok(None) && LowerBank(kind, None) == Ok(None);
    if 0 <= a <= 16 {
      assert LowerAlignment(Some(Evaluated(a))) == Ok(Some(a));
      assert LowerAlignOffset(a, None) == Ok(None);
    }
  }

  /** Once the alignment a is in range, the offset must satisfy 0 <= o < 2^a. */
  lemma AlignOffsetChecks(kind: Kind, a: i32, o: i32)
    requires kind.WellFormed() && 0 <= a <= 16
    ensures TryNew(kind, None, None, Some(Evaluated(a)), Some(Evaluated(o))) == Err(AlignOfsOutOfRange(o, Pow2(a)))
      <==> !(0 <= o < Pow2(a))
  {
    assert LowerAddress(kind, None) == Ok(None) && LowerBank(kind, None) == Ok(None);
    assert LowerAlignment(Some(Evaluated(a))) == Ok(Some(a));
    Pow2UpTo16(a);
    if 0 <= o < Pow2(a) {
      assert LowerAlignOffset(a, Some(Evaluated(o))) == Ok(Some(o));
    }
  }

  /** An explicit address together with alignment a > 0 and offset o succeeds exactly when
      the address's low a bits equal o; the alignment is then dropped. */
  lemma ExplicitAddressAlignment(kind: Kind, addr: u16, a: i32, o: i32)
    requires kind.WellFormed()
    requires kind.startAddr <= addr < kind.startAddr + kind.size
    requires 1 <= a <= 16 && 0 <= o < Pow2(a)
    ensures var r := TryNew(kind, Some(Evaluated(addr)), None, Some(Evaluated(a)), Some(Evaluated(o)));
      && (r.Ok? <==> addr % Pow2(a) == o)
      && (r.Err? ==> r.error == AlignMismatch(addr, a, o))
      && (r.Ok? ==> r.value.address == Some(addr) && r.value.alignment == 0 && r.value.alignOffset == o)
  {
    Pow2UpTo16(a);
  }

  /** Without an address, an alignment the region's start cannot satisfy is refused; the
      maximal alignment 16 becomes the sentinel address 16 with alignment 0. */
  lemma AlignmentWithoutAddress(kind: Kind, a: i32)
    requires kind.WellFormed()
    requires 1 <= a <= 16
    ensures var r := TryNew(kind, None, None, Some(Evaluated(a)), None);
      && (kind.startAddr % Pow2(a) != 0 ==> r == Err(OverAligned(a, kind)))
      && (kind.startAddr % Pow2(a) == 0 ==>
            && r.Ok?
            && (a == 16 ==> r.value.address == Some(16) && r.value.alignment == 0)
            && (a < 16 ==> r.value.address.None? && r.value.alignment == a))
  {
  }

  /** For a single-bank kind, a given bank that passed the range check already equals the
      forced one, so the `debug_assert_eq!` on it cannot fail. */
  lemma SingleBankAgrees(kind: Kind, address: Option<Evaluation>, b: i32, alignment: Option<Evaluation>, offset: Option<Evaluation>)
    requires kind.WellFormed()
    requires kind.firstBank == kind.lastBank
    requires TryNew(kind, address, Some(Evaluated(b)), alignment, offset).Ok?
    ensures b % 0x1_0000_0000 == kind.firstBank
    ensures TryNew(kind, address, Some(Evaluated(b)), alignment, offset).value.bank == Some(kind.firstBank)
  {
  }

  // ---------------------------------------------------------------------------
  // Redefinition (`add_section` on an existing name, and `merge`)
  // ---------------------------------------------------------------------------

  /** Bank reconciliation: two pinned banks must agree; otherwise the pinned one, if any,
      is kept. Only the bank can change. */
  function Merge(current: NormalizedSectAttrs, name: string, other: NormalizedSectAttrs): (r: Result<NormalizedSectAttrs, AsmErrorKind>)
    ensures r.Err? <==> current.bank.Some? && other.bank.Some? && current.bank != other.bank
    ensures r.Err? ==> r.error == DifferentBank(name, current.bank.value, other.bank.value)
    ensures r.Ok? ==> r.value == current.(bank := r.value.bank)
    ensures r.Ok? ==>
      && (current.bank.Some? ==> r.value.bank == current.bank)
      && (other.bank.Some? ==> r.value.bank == other.bank)
      && (r.value.bank.Some? ==> current.bank.Some? || other.bank.Some?)
  {
    match (current.bank, other.bank)
    case (Some(cur), Some(req)) =>
      if cur != req then Err(DifferentBank(name, cur, req)) else Ok(current)
    case (None, otherBank) => Ok(current.(bank := otherBank))
    case (Some(_), None) => Ok(current)
  }

  /** What `add_section` does. `Aborted` stands for reaching one of the `todo!()`s of the
      union and fragment paths, where the process panics. */
  datatype Outcome = Done | Failed(error: AsmErrorKind) | Aborted

  /** Re-declaring an existing section: the first rule that applies decides. */
  function Redefine(existing: SectionData, name: string, kind: Kind, modifier: Modifier, attrs: NormalizedSectAttrs): (r: Outcome)
    ensures r != Done
    ensures existing.modifier == Normal ==> r == Failed(SectAlreadyDefined(name))
    ensures existing.modifier != Normal && modifier != existing.modifier ==>
      r == Failed(DifferentSectMod(name, existing.modifier))
    ensures existing.modifier != Normal && modifier == existing.modifier && kind.region != existing.kind.region ==>
      r == Failed(DifferentSectKind(name, existing.kind))
    ensures existing.modifier == Union && modifier == Union && kind.region == existing.kind.region && kind.hasData ==>
      r == Failed(RomUnion(kind))
    ensures
      && existing.modifier != Normal && modifier == existing.modifier
      && kind.region == existing.kind.region
      && (modifier == Union ==> !kind.hasData)
      && Merge(existing.attrs, name, attrs).Err?
      ==> r == Failed(Merge(existing.attrs, name, attrs).error)
    ensures r == Aborted <==>
      && existing.modifier != Normal && modifier == existing.modifier
      && kind.region == existing.kind.region
      && (modifier == Union ==> !kind.hasData)
      && Merge(existing.attrs, name, attrs).Ok?
  {
    match existing.modifier
    case Normal => Failed(SectAlreadyDefined(name))
    case _ =>
      if existing.modifier != modifier then Failed(DifferentSectMod(name, existing.modifier))
      else if existing.kind.region != kind.region then Failed(DifferentSectKind(name, existing.kind))
      else if modifier == Union && kind.hasData then Failed(RomUnion(kind))
      else
        match Merge(existing.attrs, name, attrs)
        case Err(e) => Failed(e)
        case Ok(_) => Aborted
  }

  // ---------------------------------------------------------------------------
  // Program counter (`SectionHandle::try_get_pc`)
  // ---------------------------------------------------------------------------

  /** The base address plus the data length clamped to `u16::MAX`, added with wrap-around. */
  function TryGetPc(handle: SectionHandle): Option<u16>
  {
    match handle.section.attrs.address
    case None => None
    case Some(base) => Some((base + Min(|handle.section.data|, 0xFFFF)) % 0x1_0000)
  }

  lemma TryGetPcValue(handle: SectionHandle)
    ensures TryGetPc(handle).None? <==> handle.section.attrs.address.None?
    ensures handle.section.attrs.address.Some? && handle.section.attrs.address.value + |handle.section.data| < 0x1_0000 ==>
      TryGetPc(handle) == Some(handle.section.attrs.address.value + |handle.section.data|)
    ensures handle.section.attrs.address.Some? && handle.section.attrs.address.value + Min(|handle.section.data|, 0xFFFF) >= 0x1_0000 ==>
      TryGetPc(handle) == Some(handle.section.attrs.address.value + Min(|handle.section.data|, 0xFFFF) - 0x1_0000)
    ensures handle.section.attrs.address.Some? && |handle.section.data| < 0x1_0000 ==>
      (TryGetPc(handle).value < handle.section.attrs.address.value <==>
         handle.section.attrs.address.value + |handle.section.data| >= 0x1_0000)
    ensures handle.section.attrs.address.Some? && |handle.section.data| >= 0x1_0000 ==>
      TryGetPc(handle) == Some(if handle.section.attrs.address.value == 0 then 0xFFFF else handle.section.attrs.address.value - 1)
  {
  }

  // ---------------------------------------------------------------------------
  // Byte encoding
  // ---------------------------------------------------------------------------

  function Zeros(n: nat): (r: seq<u8>)
    ensures |r| == n && forall k :: 0 <= k < n ==> r[k] == 0
  {
    seq(n, _ => 0)
  }

  /** The n low bytes of u, least significant first. */
  function LowBytes(u: nat, n: nat): (r: seq<u8>)
    ensures |r| == n
  {
    if n == 0 then [] else [u % 256] + LowBytes(u / 256, n - 1)
  }

  /** `i32::to_le_bytes`: the two's-complement encoding, little-endian. */
  function LeBytes(v: i32): (r: seq<u8>)
    ensures |r| == 4
  {
    LowBytes(v % 0x1_0000_0000, 4)
  }

  /** Decodes a little-endian byte string. */
  function FromLe(bytes: seq<u8>): nat
  {
    if bytes == [] then 0 else bytes[0] + 256 * FromLe(bytes[1..])
  }

  function Pow256(n: nat): (r: nat)
    ensures r >= 1
  {
    if n == 0 then 1 else 256 * Pow256(n - 1)
  }

  lemma {:induction false} LowBytesPrefix(u: nat, n: nat, w: nat)
    requires w <= n
    ensures LowBytes(u, n)[..w] == LowBytes(u, w)
  {
    if w > 0 {
      LowBytesPrefix(u / 256, n - 1, w - 1);
    }
  }

  /** Peeling the lowest byte off a remainder modulo 256^(m+1). */
  lemma PeelLowByte(u: nat, m: nat)
    ensures u % 256 + 256 * ((u / 256) % Pow256(m)) == u % Pow256(m + 1)
  {
    var p := Pow256(m);
    var q := u / 256;
    var low := 256 * (q % p) + u % 256;
    assert q == p * (q / p) + q % p;
    assert u == (256 * p) * (q / p) + low;
    ModUnique(u, 256 * p, q / p, low);
  }

  /** Euclidean division has one quotient and one remainder. */
  lemma ModUnique(u: int, d: int, k: int, r: int)
    requires d > 0 && u == d * k + r && 0 <= r < d
    ensures u % d == r
  {
    var k' := u / d;
    var r' := u % d;
    assert u == d * k' + r';
    assert d * k - d * k' == r' - r;
    assert d * (k - k') == d * k - d * k';
    assert d * (k' - k) == d * k' - d * k;
    if k > k' {
      AtLeastDivisor(d, k - k');
    } else if k < k' {
      AtLeastDivisor(d, k' - k);
    }
  }

  lemma AtLeastDivisor(d: nat, n: nat)
    requires n >= 1
    ensures d * n >= d
  {
    assert d * n == d + d * (n - 1);
  }

  /** Decoding the n low bytes of u gives u modulo 256^n. */
  lemma {:induction false} LowBytesValue(u: nat, n: nat)
    requires n <= 4
    ensures FromLe(LowBytes(u, n)) == u % Pow256(n)
  {
    if n > 0 {
      LowBytesValue(u / 256, n - 1);
      var bs := LowBytes(u, n);
      assert bs[1..] == LowBytes(u / 256, n - 1);
      PeelLowByte(u, n - 1);
    }
  }

  /** The w low bytes that `extend` writes for a constant decode to the constant modulo
      256^w: its w-byte two's-complement truncation. */
  lemma LeBytesLow(v: i32, w: Width)
    ensures FromLe(LeBytes(v)[..w]) == v % Pow256(w)
  {
    var u := v % 0x1_0000_0000;
    LowBytesPrefix(u, 4, w);
    LowBytesValue(u, w);
    TwosComplementTruncation(v, w);
  }

  /** Reducing modulo 2^32 first does not change the remainder modulo 256^w. */
  lemma TwosComplementTruncation(v: i32, w: Width)
    ensures (v % 0x1_0000_0000) % Pow256(w) == v % Pow256(w)
  {
    Pow256Add(w, 4 - w);
    assert Pow256(4) == 0x1_0000_0000;
    if v < 0 {
      TruncateThroughMultiple(v, Pow256(w), Pow256(4 - w));
    }
  }

  lemma TruncateThroughMultiple(v: int, p: int, q: int)
    requires p > 0 && p * q == 0x1_0000_0000 && -0x8000_0000 <= v < 0
    ensures (v % 0x1_0000_0000) % p == v % p
  {
    assert v % 0x1_0000_0000 == v + p * q;
    ModAddMultiple(v, p, q);
  }

  lemma {:induction false} Pow256Add(a: nat, b: nat)
    ensures Pow256(a) * Pow256(b) == Pow256(a + b)
    decreases a
  {
    if a > 0 {
      Pow256Add(a - 1, b);
      assert Pow256(a) * Pow256(b) == 256 * (Pow256(a - 1) * Pow256(b));
    }
  }

  /** Adding a multiple of the modulus leaves the remainder unchanged. */
  lemma ModAddMultiple(v: int, p: int, m: int)
    requires p > 0
    ensures (v + p * m) % p == v % p
  {
    assert v == p * (v / p) + v % p;
    assert v + p * m == p * (v / p + m) + v % p;
    ModUnique(v + p * m, p, v / p + m, v % p);
  }

  // ---------------------------------------------------------------------------
  // Emission (`SectionHandleMut::extend`), as a specification
  // ---------------------------------------------------------------------------

  function ItemWidth(item: ByteOrExpr): nat
  {
    match item
    case Byte(_) => 1
    case Expr(_, _, kind, _) => kind.width
  }

  /** The batch's total width. */
  function BatchWidth(items: seq<ByteOrExpr>): nat
  {
    if items == [] then 0 else BatchWidth(items[..|items| - 1]) + ItemWidth(items[|items| - 1])
  }

  /** How many items of the batch have no constant value. */
  function Unresolved(items: seq<ByteOrExpr>): nat
  {
    if items == [] then 0
    else Unresolved(items[..|items| - 1]) + (if items[|items| - 1].Expr? && items[|items| - 1].constant.None? then 1 else 0)
  }

  /** The emitter's running state: the section's buffer and patches, the cursor's offsets,
      and the warnings reported so far. */
  datatype Emitter = Emitter(data: seq<u8>, patches: seq<Relocation>, offset: nat, pcOffset: nat, warnings: seq<Warning>)

  function Advance(st: Emitter, n: nat): Emitter
  {
    st.(offset := st.offset + n, pcOffset := st.pcOffset + n)
  }

  function EmitItem(st: Emitter, item: ByteOrExpr, pcSection: Option<string>, isInRange: (RelocKind, i32) -> TruncationLevel): Emitter
  {
    match item
    case Byte(b) => Advance(st.(data := st.data + [b]), 1)
    case Expr(span, constant, kind, rpn) =>
      match constant
      case Some(v) =>
        var level := isInRange(kind, v);
        var warnings :=
          if level == NoTruncation then st.warnings
          else st.warnings + [TruncationWarning(span, if level == Loose then 2 else 1, kind.width * 8)];
        Advance(st.(data := st.data + LeBytes(v)[..kind.width], warnings := warnings), kind.width)
      case None =>
        var reloc := Relocation(span, st.offset, pcSection, st.pcOffset, kind, rpn);
        Advance(st.(data := st.data + Zeros(kind.width), patches := st.patches + [reloc]), kind.width)
  }

  function EmitAll(st: Emitter, items: seq<ByteOrExpr>, pcSection: Option<string>, isInRange: (RelocKind, i32) -> TruncationLevel): Emitter
  {
    if items == [] then st
    else EmitItem(EmitAll(st, items[..|items| - 1], pcSection, isInRange), items[|items| - 1], pcSection, isInRange)
  }

  /** One item appends its width to the buffer, keeps what was there, advances both cursor
      offsets by that width and appends one relocation exactly when it is unresolved. */
  lemma EmitItemGrowth(st: Emitter, item: ByteOrExpr, pcSection: Option<string>, isInRange: (RelocKind, i32) -> TruncationLevel)
    ensures var e := EmitItem(st, item, pcSection, isInRange);
      && |e.data| == |st.data| + ItemWidth(item)
      && e.data[..|st.data|] == st.data
      && e.offset == st.offset + ItemWidth(item)
      && e.pcOffset == st.pcOffset + ItemWidth(item)
      && |e.patches| == |st.patches| + (if item.Expr? && item.constant.None? then 1 else 0)
      && e.patches[..|st.patches|] == st.patches
      && |e.warnings| >= |st.warnings|
      && e.warnings[..|st.warnings|] == st.warnings
  {
  }

  lemma PrefixOfPrefix<T>(a: seq<T>, b: seq<T>, c: seq<T>)
    requires |a| <= |b| <= |c| && c[..|b|] == b && b[..|a|] == a
    ensures c[..|a|] == a
  {
    assert c[..|a|] == c[..|b|][..|a|];
  }

  /** A batch appends exactly its total width to the buffer, keeps what was there, advances
      both cursor offsets by that width and appends one relocation per unresolved item. */
  lemma {:induction false} EmitAllGrowth(st: Emitter, items: seq<ByteOrExpr>, pcSection: Option<string>, isInRange: (RelocKind, i32) -> TruncationLevel)
    ensures var e := EmitAll(st, items, pcSection, isInRange);
      && |e.data| == |st.data| + BatchWidth(items)
      && e.data[..|st.data|] == st.data
      && e.offset == st.offset + BatchWidth(items)
      && e.pcOffset == st.pcOffset + BatchWidth(items)
      && |e.patches| == |st.patches| + Unresolved(items)
      && e.patches[..|st.patches|] == st.patches
      && |e.warnings| >= |st.warnings|
      && e.warnings[..|st.warnings|] == st.warnings
  {
    if items == [] {
      assert st.data[..|st.data|] == st.data;
      assert st.patches[..|st.patches|] == st.patches;
      assert st.warnings[..|st.warnings|] == st.warnings;
    } else {
      var prefix := items[..|items| - 1];
      EmitAllGrowth(st, prefix, pcSection, isInRange);
      var m := EmitAll(st, prefix, pcSection, isInRange);
      var e := EmitItem(m, items[|items| - 1], pcSection, isInRange);
      EmitItemGrowth(m, items[|items| - 1], pcSection, isInRange);
      PrefixOfPrefix(st.data, m.data, e.data);
      PrefixOfPrefix(st.patches, m.patches, e.patches);
      PrefixOfPrefix(st.warnings, m.warnings, e.warnings);
    }
  }

  lemma EmitItemKeepsPlaceholders(st: Emitter, item: ByteOrExpr, pcSection: Option<string>, isInRange: (RelocKind, i32) -> TruncationLevel)
    requires st.offset == |st.data| && PlaceholdersIntact(st.data, st.patches)
    ensures var e := EmitItem(st, item, pcSection, isInRange);
      e.offset == |e.data| && PlaceholdersIntact(e.data, e.patches)
  {
    var e := EmitItem(st, item, pcSection, isInRange);
    forall p | p in e.patches
      ensures p.offset + p.kind.width <= |e.data|
      ensures forall k :: p.offset <= k < p.offset + p.kind.width ==> e.data[k] == 0
    {
      if p in st.patches {
        assert e.data[..|st.data|] == st.data;
      }
    }
  }

  /** When the cursor sits at the end of the buffer, a batch keeps every relocation's
      placeholder bytes zero and inside the buffer, including the ones it records. */
  lemma {:induction false} EmitAllKeepsPlaceholders(st: Emitter, items: seq<ByteOrExpr>, pcSection: Option<string>, isInRange: (RelocKind, i32) -> TruncationLevel)
    requires st.offset == |st.data| && PlaceholdersIntact(st.data, st.patches)
    ensures var e := EmitAll(st, items, pcSection, isInRange);
      e.offset == |e.data| && PlaceholdersIntact(e.data, e.patches)
  {
    if items != [] {
      EmitAllKeepsPlaceholders(st, items[..|items| - 1], pcSection, isInRange);
      EmitItemKeepsPlaceholders(EmitAll(st, items[..|items| - 1], pcSection, isInRange), items[|items| - 1], pcSection, isInRange);
    }
  }

  /** Emitting two batches in turn is emitting their concatenation. */
  lemma {:induction false} EmitAllAppend(st: Emitter, a: seq<ByteOrExpr>, b: seq<ByteOrExpr>, pcSection: Option<string>, isInRange: (RelocKind, i32) -> TruncationLevel)
    ensures EmitAll(st, a + b, pcSection, isInRange) == EmitAll(EmitAll(st, a, pcSection, isInRange), b, pcSection, isInRange)
    ensures BatchWidth(a + b) == BatchWidth(a) + BatchWidth(b)
    ensures Unresolved(a + b) == Unresolved(a) + Unresolved(b)
  {
    if b == [] {
      assert a + b == a;
    } else {
      assert (a + b)[..|a + b| - 1] == a + b[..|b| - 1];
      EmitAllAppend(st, a, b[..|b| - 1], pcSection, isInRange);
    }
  }

  /** An unresolved item records, in batch order, one relocation at the cursor position it
      is emitted at: the offsets before it plus the width of the items before it. */
  lemma EmitAllRecordsAt(st: Emitter, before: seq<ByteOrExpr>, span: Span, kind: RelocKind, rpn: Rpn, after: seq<ByteOrExpr>, pcSection: Option<string>, isInRange: (RelocKind, i32) -> TruncationLevel)
    ensures var e := EmitAll(st, before + [Expr(span, None, kind, rpn)] + after, pcSection, isInRange);
      var w := BatchWidth(before);
      var i := |st.patches| + Unresolved(before);
      && i < |e.patches|
      && e.patches[i] == Relocation(span, st.offset + w, pcSection, st.pcOffset + w, kind, rpn)
  {
    var item := Expr(span, None, kind, rpn);
    var m := EmitAll(st, before, pcSection, isInRange);
    EmitAllGrowth(st, before, pcSection, isInRange);
    var m1 := EmitAll(st, before + [item], pcSection, isInRange);
    assert (before + [item])[..|before + [item]| - 1] == before;
    assert m1 == EmitItem(m, item, pcSection, isInRange);
    EmitAllAppend(st, before + [item], after, pcSection, isInRange);
    EmitAllGrowth(m1, after, pcSection, isInRange);
    var e := EmitAll(m1, after, pcSection, isInRange);
    var i := |st.patches| + Unresolved(before);
    assert m1.patches[i] == Relocation(span, m.offset, pcSection, m.pcOffset, kind, rpn);
    assert e.patches[..|m1.patches|] == m1.patches;
    assert e.patches[i] == e.patches[..|m1.patches|][i];
  }

  /** One constant item writes the low `width` bytes of the value, least significant first,
      and warns (level 2 for a loose, 1 for a strict truncation) unless it is in range. */
  lemma EmitConstant(st: Emitter, span: Span, v: i32, kind: RelocKind, rpn: Rpn, pcSection: Option<string>, isInRange: (RelocKind, i32) -> TruncationLevel)
    ensures var e := EmitAll(st, [Expr(span, Some(v), kind, rpn)], pcSection, isInRange);
      && |e.data| == |st.data| + kind.width
      && e.data[..|st.data|] == st.data
      && FromLe(e.data[|st.data|..]) == v % Pow256(kind.width)
      && e.patches == st.patches
      && e.offset == st.offset + kind.width && e.pcOffset == st.pcOffset + kind.width
      && (isInRange(kind, v) == NoTruncation ==> e.warnings == st.warnings)
      && (isInRange(kind, v) == Loose ==> e.warnings == st.warnings + [TruncationWarning(span, 2, 8 * kind.width)])
      && (isInRange(kind, v) == Strict ==> e.warnings == st.warnings + [TruncationWarning(span, 1, 8 * kind.width)])
  {
    var items := [Expr(span, Some(v), kind, rpn)];
    assert items[..0] == [];
    var e := EmitAll(st, items, pcSection, isInRange);
    assert EmitAll(st, items[..0], pcSection, isInRange) == st;
    assert e == EmitItem(st, items[0], pcSection, isInRange);
    assert e.data == st.data + LeBytes(v)[..kind.width];
    assert e.data[|st.data|..] == LeBytes(v)[..kind.width];
    LeBytesLow(v, kind.width);
  }

  /** One unresolved item records exactly one relocation at the cursor, writes `width` zero
      bytes and advances both offsets by `width`. */
  lemma EmitUnresolved(st: Emitter, span: Span, kind: RelocKind, rpn: Rpn, pcSection: Option<string>, isInRange: (RelocKind, i32) -> TruncationLevel)
    ensures var e := EmitAll(st, [Expr(span, None, kind, rpn)], pcSection, isInRange);
      && e.patches == st.patches + [Relocation(span, st.offset, pcSection, st.pcOffset, kind, rpn)]
      && e.data == st.data + Zeros(kind.width)
      && e.offset == st.offset + kind.width && e.pcOffset == st.pcOffset + kind.width
      && e.warnings == st.warnings
  {
    assert [Expr(span, None, kind, rpn)][..0] == [];
  }

  // ---------------------------------------------------------------------------
  // One `extend` call as a specification
  // ---------------------------------------------------------------------------

  function SaturatingAdd(a: nat, b: nat): (r: nat)
    ensures r <= USIZE_MAX || r == a
  {
    if a > USIZE_MAX then a
    else if a + b <= USIZE_MAX then a + b else USIZE_MAX
  }

  datatype Extension = Extension(section: SectionData, cursor: ActiveSection, result: Result<seq<Warning>, AsmErrorKind>)

  /** One `extend` call with an unbounded total width: the fold's sum is exact. */
  function ExtendSpec(section: SectionData, cursor: ActiveSection, items: seq<ByteOrExpr>, isInRange: (RelocKind, i32) -> TruncationLevel): Extension
  {
    ExtendWithTotal(section, cursor, items, isInRange, BatchWidth(items))
  }

  /** One `extend` call, given the total width the fold computed. */
  function ExtendWithTotal(section: SectionData, cursor: ActiveSection, items: seq<ByteOrExpr>, isInRange: (RelocKind, i32) -> TruncationLevel, total: nat): Extension
  {
    if !section.kind.hasData then
      Extension(section, cursor, Err(NotCodeSection(section.kind)))
    else
      var lenVirt := SaturatingAdd(section.lenVirt, total);
      if lenVirt <= section.kind.size then
        var e := EmitAll(Emitter(section.data, section.patches, cursor.offset, cursor.pcOffset, []), items, cursor.pcSection, isInRange);
        Extension(
          section.(data := e.data, patches := e.patches, lenVirt := lenVirt),
          cursor.(offset := e.offset, pcOffset := e.pcOffset),
          Ok(e.warnings))
      else
        Extension(section.(lenVirt := lenVirt), cursor, Ok([]))
  }

  /** `extend` on a kind without data fails and changes nothing. On a data kind, the
      virtual length grows by the batch's width (saturating) whether or not the batch fits;
      if it fits, the buffer grows by exactly that width and both offsets advance by it,
      otherwise buffer, patches and cursor are untouched. */
  lemma ExtendOutcome(section: SectionData, cursor: ActiveSection, items: seq<ByteOrExpr>, isInRange: (RelocKind, i32) -> TruncationLevel)
    requires section.lenVirt <= USIZE_MAX
    ensures var x := ExtendSpec(section, cursor, items, isInRange);
      var lenVirt := if section.lenVirt + BatchWidth(items) <= USIZE_MAX then section.lenVirt + BatchWidth(items) else USIZE_MAX;
      && (!section.kind.hasData ==>
            x.result == Err(NotCodeSection(section.kind)) && x.section == section && x.cursor == cursor)
      && (section.kind.hasData ==> x.result.Ok? && x.section.lenVirt == lenVirt)
      && (section.kind.hasData && lenVirt <= section.kind.size ==>
            && |x.section.data| == |section.data| + BatchWidth(items)
            && x.section.data[..|section.data|] == section.data
            && |x.section.patches| == |section.patches| + Unresolved(items)
            && x.section.patches[..|section.patches|] == section.patches
            && x.cursor.offset == cursor.offset + BatchWidth(items)
            && x.cursor.pcOffset == cursor.pcOffset + BatchWidth(items))
      && (section.kind.hasData && lenVirt > section.kind.size ==>
            && x.section == section.(lenVirt := lenVirt)
            && x.cursor == cursor
            && x.result == Ok([]))
      && x.section.kind == section.kind && x.section.modifier == section.modifier && x.section.attrs == section.attrs
      && x.cursor.name == cursor.name && x.cursor.pcSection == cursor.pcSection
  {
    if section.kind.hasData {
      EmitAllGrowth(Emitter(section.data, section.patches, cursor.offset, cursor.pcOffset, []), items, cursor.pcSection, isInRange);
    }
  }

  /** `extend` keeps a section consistent while its cursor sits at the end of its buffer;
      in particular, after a batch that fits, the buffer length equals the virtual length
      (the `debug_assert_eq!` after the loop). */
  lemma ExtendKeepsConsistent(section: SectionData, cursor: ActiveSection, items: seq<ByteOrExpr>, isInRange: (RelocKind, i32) -> TruncationLevel)
    requires section.Consistent() && cursor.offset == |section.data|
    ensures var x := ExtendSpec(section, cursor, items, isInRange);
      && x.section.Consistent()
      && x.cursor.offset == |x.section.data|
      && (section.kind.hasData && x.section.lenVirt <= section.kind.size ==> |x.section.data| == x.section.lenVirt)
  {
    ExtendOutcome(section, cursor, items, isInRange);
    if section.kind.hasData {
      var st := Emitter(section.data, section.patches, cursor.offset, cursor.pcOffset, []);
      EmitAllKeepsPlaceholders(st, items, cursor.pcSection, isInRange);
    }
  }

  /** The virtual length tracks every batch requested, even after one that overflowed. */
  lemma VirtualLengthAcrossBatches(section: SectionData, cursor: ActiveSection, first: seq<ByteOrExpr>, second: seq<ByteOrExpr>, isInRange: (RelocKind, i32) -> TruncationLevel)
    requires section.kind.hasData
    requires section.lenVirt + BatchWidth(first) + BatchWidth(second) <= USIZE_MAX
    ensures var x1 := ExtendSpec(section, cursor, first, isInRange);
      var x2 := ExtendSpec(x1.section, x1.cursor, second, isInRange);
      x2.section.lenVirt == section.lenVirt + BatchWidth(first) + BatchWidth(second)
  {
  }

  // ---------------------------------------------------------------------------
  // The two loops of `extend`
  // ---------------------------------------------------------------------------

  /** The first loop: the total width of a batch. */
  method TotalWidth(items: seq<ByteOrExpr>) returns (total: nat)
    ensures total == BatchWidth(items)
  {
    total := 0;
    for i := 0 to |items|
      invariant total == BatchWidth(items[..i])
    {
      assert items[..i + 1][..i] == items[..i];
      total := total + match items[i] {
        case Byte(_) => 1
        case Expr(_, _, kind, _) => kind.width
      };
    }
    assert items[..|items|] == items;
  }

  /** The first loop as written, when `RelocKind::width()` returns `u8` or `u16` (`usize::from`
      on the item width admits those and `usize`): the accumulator has that type, so a release
      build sums modulo `bound` (2^8 or 2^16); a debug build panics instead. */
  method TotalWidthWrapping(items: seq<ByteOrExpr>, bound: nat) returns (total: nat)
    requires bound == 0x100 || bound == 0x1_0000
    ensures total == BatchWidth(items) % bound
  {
    total := 0;
    for i := 0 to |items|
      invariant total == BatchWidth(items[..i]) % bound
    {
      assert items[..i + 1][..i] == items[..i];
      var w := match items[i] {
        case Byte(_) => 1
        case Expr(_, _, kind, _) => kind.width
      };
      WrappingStep(BatchWidth(items[..i]), w, bound);
      total := (total + w) % bound;
    }
    assert items[..|items|] == items;
  }

  /** Adding to a wrapped sum and wrapping again is wrapping the exact sum. */
  lemma WrappingStep(a: nat, w: nat, bound: nat)
    requires bound > 0
    ensures (a % bound + w) % bound == (a + w) % bound
  {
    assert a == bound * (a / bound) + a % bound;
    assert a + w == (a % bound + w) + bound * (a / bound);
    ModAddMultiple(a % bound + w, bound, a / bound);
  }

  /** With the wrapping fold, a batch whose total width is exactly the accumulator's range adds
      nothing to the virtual length yet is still written in full, so the buffer outgrows the
      virtual length and the `debug_assert_eq!` after the loop fails. */
  lemma WrappedWidthBreaksConsistency(section: SectionData, cursor: ActiveSection, items: seq<ByteOrExpr>, isInRange: (RelocKind, i32) -> TruncationLevel, bound: nat)
    requires bound == 0x100 || bound == 0x1_0000
    requires section.Consistent() && section.kind.hasData && section.lenVirt <= section.kind.size
    requires BatchWidth(items) == bound
    ensures var x := ExtendWithTotal(section, cursor, items, isInRange, BatchWidth(items) % bound);
      && x.section.lenVirt == section.lenVirt
      && |x.section.data| == |section.data| + bound
      && x.section.lenVirt <= x.section.kind.size
      && |x.section.data| != x.section.lenVirt
      && !x.section.Consistent()
  {
    assert BatchWidth(items) % bound == 0;
    EmitAllGrowth(Emitter(section.data, section.patches, cursor.offset, cursor.pcOffset, []), items, cursor.pcSection, isInRange);
  }

  /** A run of `n` literal bytes has total width `n`. */
  lemma {:induction false} ByteRunWidth(n: nat)
    ensures BatchWidth(seq(n, _ => Byte(0))) == n
  {
    if n > 0 {
      var run := seq(n, _ => Byte(0));
      assert run[..n - 1] == seq(n - 1, _ => Byte(0));
      ByteRunWidth(n - 1);
    }
  }

  /** A data directive of 256 literal bytes, emitted into a fresh data section with a byte-wide
      accumulator, leaves the virtual length at 0 while writing 256 bytes. */
  lemma LongByteRunBreaksConsistency(kind: Kind, name: string, definition: Span, attrs: NormalizedSectAttrs, isInRange: (RelocKind, i32) -> TruncationLevel)
    requires kind.hasData
    ensures var items := seq(0x100, _ => Byte(0));
      var x := ExtendWithTotal(NewSectionData(kind, Normal, definition, attrs), NewActiveSection(name, 0), items, isInRange, BatchWidth(items) % 0x100);
      x.section.lenVirt == 0 && |x.section.data| == 0x100 && !x.section.Consistent()
  {
    ByteRunWidth(0x100);
    WrappedWidthBreaksConsistency(NewSectionData(kind, Normal, definition, attrs), NewActiveSection(name, 0), seq(0x100, _ => Byte(0)), isInRange, 0x100);
  }

  /** The body of the second loop: push one item's bytes, recording a relocation for an
      unresolved value and a warning for a constant that does not fit its width. */
  method PushItem(st: Emitter, item: ByteOrExpr, pcSection: Option<string>, isInRange: (RelocKind, i32) -> TruncationLevel) returns (next: Emitter)
    ensures next == EmitItem(st, item, pcSection, isInRange)
  {
    var data, patches, warnings := st.data, st.patches, st.warnings;
    var len: nat;
    match item {
      case Byte(byte) =>
        data := data + [byte];
        len := 1;
      case Expr(span, constant, kind, rpn) =>
        len := kind.width;
        var bytes: seq<u8>;
        match constant {
          case Some(value) =>
            var level := isInRange(kind, value);
            if level != NoTruncation {
              warnings := warnings + [TruncationWarning(span, if level == Loose then 2 else 1, kind.width * 8)];
            }
            bytes := LeBytes(value);
          case None =>
            patches := patches + [Relocation(span, st.offset, pcSection, st.pcOffset, kind, rpn)];
            bytes := [0, 0, 0, 0];
            assert bytes[..len] == Zeros(len);
        }
        data := data + bytes[..len];
    }
    next := Emitter(data, patches, st.offset + len, st.pcOffset + len, warnings);
  }

  /** The second loop: push every item of the batch in order. */
  method PushAll(start: Emitter, items: seq<ByteOrExpr>, pcSection: Option<string>, isInRange: (RelocKind, i32) -> TruncationLevel) returns (e: Emitter)
    ensures e == EmitAll(start, items, pcSection, isInRange)
  {
    e := start;
    for i := 0 to |items|
      invariant e == EmitAll(start, items[..i], pcSection, isInRange)
    {
      assert items[..i + 1][..i] == items[..i];
      e := PushItem(e, items[i], pcSection, isInRange);
    }
    assert items[..|items|] == items;
  }

  // ---------------------------------------------------------------------------
  // The section table and the stack of active slots
  // ---------------------------------------------------------------------------

  class Sections {
    var sections: map<string, SectionData>
    var stack: seq<Option<ActiveSection>>

    /** At least the base slot exists, every cursor names a known section, every section is
        consistent, and the top cursor sits at the end of its section's buffer. */
    ghost predicate Valid()
      reads this
    {
      && |stack| >= 1
      && (forall i :: 0 <= i < |stack| && stack[i].Some? ==> stack[i].value.name in sections)
      && (forall n :: n in sections ==> sections[n].Consistent())
      && (stack[|stack| - 1].Some? ==>
            stack[|stack| - 1].value.offset == |sections[stack[|stack| - 1].value.name].data|)
    }

    /** `Sections::new`: no section, and a single empty slot. */
    constructor ()
      ensures Valid()
      ensures sections == map[] && stack == [None]
      ensures ActiveHandle().None?
    {
      sections := map[];
      stack := [None];
    }

    /** `active_section` / `active_section_mut`: the top slot's cursor with the section it
        names; the lookup of that section never fails. */
    function ActiveHandle(): (h: Option<SectionHandle>)
      reads this
      requires Valid()
      ensures h.None? <==> stack[|stack| - 1].None?
      ensures h.Some? ==>
        && stack[|stack| - 1] == Some(h.value.cursor)
        && h.value.cursor.name in sections
        && h.value.section == sections[h.value.cursor.name]
    {
      match stack[|stack| - 1]
      case None => None
      case Some(top) => Some(SectionHandle(top, sections[top.name]))
    }

    /** `add_section`: a new name gets an empty section and replaces the top slot with a
        cursor at its start; an existing name is refused (or reaches a `todo!()`) and
        nothing changes. */
    method AddSection(name: string, kind: Kind, modifier: Modifier, attrs: NormalizedSectAttrs, definition: Span) returns (r: Outcome)
      requires Valid()
      modifies this
      ensures Valid()
      ensures |stack| == |old(stack)|
      ensures name !in old(sections) ==>
        && r == Done
        && sections == old(sections)[name := NewSectionData(kind, modifier, definition, attrs)]
        && stack == old(stack)[|old(stack)| - 1 := Some(NewActiveSection(name, 0))]
      ensures name in old(sections) ==>
        && r == Redefine(old(sections)[name], name, kind, modifier, attrs)
        && r != Done
        && sections == old(sections) && stack == old(stack)
    {
      var offset: nat;
      if name in sections {
        // Every redefinition path either fails or reaches a `todo!()` before the slot update.
        r := Redefine(sections[name], name, kind, modifier, attrs);
        return;
      } else {
        sections := sections[name := NewSectionData(kind, modifier, definition, attrs)];
        offset := 0;
      }
      stack := stack[|stack| - 1 := Some(NewActiveSection(name, offset))];
      r := Done;
    }

    /** `SectionHandleMut::extend` on the active section. The new section record and cursor
        are those of `ExtendSpec`; `isInRange` is `RelocKind::is_in_range`, and the
        warnings passed to the `warn` callback are returned in order. */
    method Extend(items: seq<ByteOrExpr>, isInRange: (RelocKind, i32) -> TruncationLevel) returns (r: Result<seq<Warning>, AsmErrorKind>)
      requires Valid() && ActiveHandle().Some?
      modifies this
      ensures Valid()
      ensures var top := old(stack)[|old(stack)| - 1].value;
        var x := ExtendSpec(old(sections)[top.name], top, items, isInRange);
        && r == x.result
        && sections == old(sections)[top.name := x.section]
        && stack == old(stack)[|old(stack)| - 1 := Some(x.cursor)]
    {
      var cursor := stack[|stack| - 1].value;
      var section := sections[cursor.name];
      ExtendKeepsConsistent(section, cursor, items, isInRange);
      if !section.kind.hasData {
        r := Err(NotCodeSection(section.kind));
        assert sections == sections[cursor.name := section];
        return;
      }

      var totalLen := TotalWidth(items);
      var lenVirt := SaturatingAdd(section.lenVirt, totalLen);

      var data, patches, offset, pcOffset := section.data, section.patches, cursor.offset, cursor.pcOffset;
      var warnings: seq<Warning> := [];
      if lenVirt <= section.kind.size {
        var e := PushAll(Emitter(data, patches, offset, pcOffset, warnings), items, cursor.pcSection, isInRange);
        data, patches, offset, pcOffset, warnings := e.data, e.patches, e.offset, e.pcOffset, e.warnings;
        assert lenVirt == |data|;
      }
      sections := sections[cursor.name := section.(data := data, patches := patches, lenVirt := lenVirt)];
      stack := stack[|stack| - 1 := Some(cursor.(offset := offset, pcOffset := pcOffset))];
      r := Ok(warnings);
    }
  }
}
