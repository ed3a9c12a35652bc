/** The value parsers of the cartridge-header fixer's command line (src/fix/args.rs): the
    fix-spec flag string, numeric byte arguments, fixed-width ASCII header fields, and mapper
    names with their extension lists. */
module FixArgs {
  import opened Basics

  // ---------------------------------------------------------------------------
  // Fix specification (`FixSpec::from_str`)
  // ---------------------------------------------------------------------------

  const FIX_LOGO: bv8 := 0x80
  const TRASH_LOGO: bv8 := 0x40
  const FIX_HEADER_SUM: bv8 := 0x20
  const TRASH_HEADER_SUM: bv8 := 0x10
  const FIX_GLOBAL_SUM: bv8 := 0x08
  const TRASH_GLOBAL_SUM: bv8 := 0x04

  /** Which character of a fix/trash pair occurs last in a string, if either occurs. */
  datatype Choice = Neither | Fix | Trash

  function LastChoice(s: string, fixChar: char, trashChar: char): Choice
    decreases |s|
  {
    if s == [] then Neither
    else if s[|s| - 1] == fixChar then Fix
    else if s[|s| - 1] == trashChar then Trash
    else LastChoice(s[..|s| - 1], fixChar, trashChar)
  }

  /** `x` occurs in `s`, and neither `x` nor `y` occurs after it. */
  ghost predicate LastAmong(s: string, x: char, y: char)
  {
    exists i :: 0 <= i < |s| && s[i] == x && x !in s[i + 1..] && y !in s[i + 1..]
  }

  function ChoiceFlag(c: Choice, fix: bv8, trash: bv8): bv8
  {
    match c
    case Neither => 0
    case Fix => fix
    case Trash => trash
  }

  /** The flags a fix-spec string stands for: in each pair, the flag of whichever of its two
      characters comes last ('l'/'L' logo, 'h'/'H' header checksum, 'g'/'G' global checksum). */
  function FixSpecOf(s: string): bv8
  {
    ChoiceFlag(LastChoice(s, 'l', 'L'), FIX_LOGO, TRASH_LOGO)
    | ChoiceFlag(LastChoice(s, 'h', 'H'), FIX_HEADER_SUM, TRASH_HEADER_SUM)
    | ChoiceFlag(LastChoice(s, 'g', 'G'), FIX_GLOBAL_SUM, TRASH_GLOBAL_SUM)
  }

  /** Scans the characters, letting each one clear its partner flag and set its own; any
      other character is ignored (the source only warns about it). Parsing never fails. */
  method FixSpecFromStr(s: string) returns (result: bv8)
    ensures result == FixSpecOf(s)
  {
    result := 0;
    for i := 0 to |s|
      invariant result == FixSpecOf(s[..i])
    {
      var c := s[i];
      assert s[..i + 1] == s[..i] + [c];
      LastChoiceAppend(s[..i], [c], 'l', 'L');
      LastChoiceAppend(s[..i], [c], 'h', 'H');
      LastChoiceAppend(s[..i], [c], 'g', 'G');
      if c == 'l' {
        if result & TRASH_LOGO == TRASH_LOGO { result := result & !TRASH_LOGO; }
        result := result | FIX_LOGO;
      } else if c == 'L' {
        if result & FIX_LOGO == FIX_LOGO { result := result & !FIX_LOGO; }
        result := result | TRASH_LOGO;
      } else if c == 'h' {
        if result & TRASH_HEADER_SUM == TRASH_HEADER_SUM { result := result & !TRASH_HEADER_SUM; }
        result := result | FIX_HEADER_SUM;
      } else if c == 'H' {
        if result & FIX_HEADER_SUM == FIX_HEADER_SUM { result := result & !FIX_HEADER_SUM; }
        result := result | TRASH_HEADER_SUM;
      } else if c == 'g' {
        if result & TRASH_GLOBAL_SUM == TRASH_GLOBAL_SUM { result := result & !TRASH_GLOBAL_SUM; }
        result := result | FIX_GLOBAL_SUM;
      } else if c == 'G' {
        if result & FIX_GLOBAL_SUM == FIX_GLOBAL_SUM { result := result & !FIX_GLOBAL_SUM; }
        result := result | TRASH_GLOBAL_SUM;
      }
    }
    assert s[..|s|] == s;
  }

  /** The last choice in a concatenation is the second part's, unless it has none. */
  lemma {:induction false} LastChoiceAppend(a: string, b: string, f: char, t: char)
    ensures LastChoice(a + b, f, t) == if LastChoice(b, f, t) == Neither then LastChoice(a, f, t) else LastChoice(b, f, t)
    decreases |b|
  {
    if b == [] {
      assert a + b == a;
    } else {
      var b' := b[..|b| - 1];
      assert (a + b)[..|a + b| - 1] == a + b';
      LastChoiceAppend(a, b', f, t);
    }
  }

  lemma {:induction false} LastChoiceNeither(s: string, f: char, t: char)
    ensures LastChoice(s, f, t) == Neither <==> forall i :: 0 <= i < |s| ==> s[i] != f && s[i] != t
    decreases |s|
  {
    if s != [] {
      var p := s[..|s| - 1];
      LastChoiceNeither(p, f, t);
      assert forall i :: 0 <= i < |p| ==> p[i] == s[i];
    }
  }

  lemma {:induction false} LastChoiceFix(s: string, f: char, t: char)
    requires f != t
    ensures LastChoice(s, f, t) == Fix <==> LastAmong(s, f, t)
    decreases |s|
  {
    if s != [] {
      var n := |s| - 1;
      if s[n] == f {
        assert s[n + 1..] == [];
      } else if s[n] == t {
        LastAmongBlocked(s, f, t);
      } else {
        LastChoiceFix(s[..n], f, t);
        LastAmongSkipsOthers(s, f, t);
      }
    }
  }

  /** When the other character of the pair ends the string, `x` is not the last of the two. */
  lemma LastAmongBlocked(s: string, x: char, y: char)
    requires s != [] && s[|s| - 1] == y && x != y
    ensures !LastAmong(s, x, y)
  {
    var n := |s| - 1;
    forall i | 0 <= i < |s| && s[i] == x ensures y in s[i + 1..] {
      assert s[i + 1..][n - i - 1] == y;
    }
  }

  /** A final character outside the pair does not change which of the two comes last. */
  lemma LastAmongSkipsOthers(s: string, x: char, y: char)
    requires s != [] && s[|s| - 1] != x && s[|s| - 1] != y
    ensures LastAmong(s, x, y) <==> LastAmong(s[..|s| - 1], x, y)
  {
    if LastAmong(s, x, y) {
      LastAmongDropsLast(s, x, y);
    }
    if LastAmong(s[..|s| - 1], x, y) {
      LastAmongKeepsLast(s, x, y);
    }
  }

  lemma LastAmongDropsLast(s: string, x: char, y: char)
    requires s != [] && s[|s| - 1] != x && s[|s| - 1] != y && LastAmong(s, x, y)
    ensures LastAmong(s[..|s| - 1], x, y)
  {
    var n := |s| - 1;
    var p := s[..n];
    var i :| 0 <= i < |s| && s[i] == x && x !in s[i + 1..] && y !in s[i + 1..];
    assert i < n && p[i] == x;
    assert s[i + 1..] == p[i + 1..] + [s[n]];
  }

  lemma LastAmongKeepsLast(s: string, x: char, y: char)
    requires s != [] && s[|s| - 1] != x && s[|s| - 1] != y && LastAmong(s[..|s| - 1], x, y)
    ensures LastAmong(s, x, y)
  {
    var n := |s| - 1;
    var p := s[..n];
    var i :| 0 <= i < |p| && p[i] == x && x !in p[i + 1..] && y !in p[i + 1..];
    assert s[i] == x;
    assert s[i + 1..] == p[i + 1..] + [s[n]];
    assert x !in [s[n]] && y !in [s[n]];
  }

  function Swapped(c: Choice): Choice
  {
    match c
    case Neither => Neither
    case Fix => Trash
    case Trash => Fix
  }

  lemma {:induction false} LastChoiceSwap(s: string, f: char, t: char)
    requires f != t
    ensures LastChoice(s, t, f) == Swapped(LastChoice(s, f, t))
    decreases |s|
  {
    if s != [] {
      LastChoiceSwap(s[..|s| - 1], f, t);
    }
  }

  /** `LastChoice` means what its name says: `Fix` exactly when the fix character is the last
      of the pair to occur, `Trash` symmetrically, `Neither` when no character of the pair occurs. */
  lemma LastChoiceMeaning(s: string, f: char, t: char)
    requires f != t
    ensures LastChoice(s, f, t) == Neither <==> forall i :: 0 <= i < |s| ==> s[i] != f && s[i] != t
    ensures LastChoice(s, f, t) == Fix <==> LastAmong(s, f, t)
    ensures LastChoice(s, f, t) == Trash <==> LastAmong(s, t, f)
  {
    LastChoiceNeither(s, f, t);
    LastChoiceFix(s, f, t);
    LastChoiceFix(s, t, f);
    LastChoiceSwap(s, f, t);
  }

  /** A fix spec never holds both flags of a pair, and never the two low bits. */
  lemma FixSpecPairsExclusive(s: string)
    ensures FixSpecOf(s) & (FIX_LOGO | TRASH_LOGO) != (FIX_LOGO | TRASH_LOGO)
    ensures FixSpecOf(s) & (FIX_HEADER_SUM | TRASH_HEADER_SUM) != (FIX_HEADER_SUM | TRASH_HEADER_SUM)
    ensures FixSpecOf(s) & (FIX_GLOBAL_SUM | TRASH_GLOBAL_SUM) != (FIX_GLOBAL_SUM | TRASH_GLOBAL_SUM)
    ensures FixSpecOf(s) & 0x03 == 0
  {
  }

  /** Repeating a fix-spec string does not change what it means. */
  lemma FixSpecIdempotent(s: string)
    ensures FixSpecOf(s + s) == FixSpecOf(s)
  {
    LastChoiceAppend(s, s, 'l', 'L');
    LastChoiceAppend(s, s, 'h', 'H');
    LastChoiceAppend(s, s, 'g', 'G');
  }

  /** A character other than the six pair characters leaves the result unchanged, wherever it is. */
  lemma FixSpecIgnoresUnknown(a: string, c: char, b: string)
    requires c !in "lLhHgG"
    ensures FixSpecOf(a + [c] + b) == FixSpecOf(a + b)
  {
    assert "lLhHgG"[0] == 'l' && "lLhHgG"[1] == 'L' && "lLhHgG"[2] == 'h';
    assert "lLhHgG"[3] == 'H' && "lLhHgG"[4] == 'g' && "lLhHgG"[5] == 'G';
    assert c != 'l' && c != 'L' && c != 'h' && c != 'H' && c != 'g' && c != 'G';
    LastChoiceAppend(a + [c], b, 'l', 'L');
    LastChoiceAppend(a + [c], b, 'h', 'H');
    LastChoiceAppend(a + [c], b, 'g', 'G');
    LastChoiceAppend(a, [c], 'l', 'L');
    LastChoiceAppend(a, [c], 'h', 'H');
    LastChoiceAppend(a, [c], 'g', 'G');
    LastChoiceAppend(a, b, 'l', 'L');
    LastChoiceAppend(a, b, 'h', 'H');
    LastChoiceAppend(a, b, 'g', 'G');
  }

  // ---------------------------------------------------------------------------
  // Byte arguments (`parse_u8`, on top of the standard `u8::from_str_radix`)
  // ---------------------------------------------------------------------------

  datatype IntErrorKind = Empty | InvalidDigit | PosOverflow

  /** The text the standard integer-parse error displays for each kind. */
  function IntErrorMessage(k: IntErrorKind): string
  {
    match k
    case Empty => "cannot parse integer from empty string"
    case InvalidDigit => "invalid digit found in string"
    case PosOverflow => "number too large to fit in target type"
  }

  /** The standard digit conversion: '0'-'9', then 'a'-'z' or 'A'-'Z' from ten, below the radix. */
  function ToDigit(c: char, radix: nat): (d: Option<nat>)
    requires 2 <= radix <= 36
    ensures d.Some? ==> d.value < radix
  {
    var v := if '0' <= c <= '9' then c as int - '0' as int
             else if 'a' <= c <= 'z' then c as int - 'a' as int + 10
             else if 'A' <= c <= 'Z' then c as int - 'A' as int + 10
             else radix;
    if v < radix then Some(v) else None
  }

  predicate AllDigits(ds: string, radix: nat)
    requires 2 <= radix <= 36
  {
    forall i :: 0 <= i < |ds| ==> ToDigit(ds[i], radix).Some?
  }

  function Pow(b: nat, n: nat): (r: nat)
    ensures b >= 1 ==> r >= 1
  {
    if n == 0 then 1 else b * Pow(b, n - 1)
  }

  /** The value of a numeral by place value: each digit weighs radix^(its distance from the right). */
  function PlaceValue(ds: string, radix: nat): nat
    requires 2 <= radix <= 36 && AllDigits(ds, radix)
    decreases |ds|
  {
    if ds == [] then 0
    else
      AllDigitsFirst(ds, radix);
      ToDigit(ds[0], radix).value * Pow(radix, |ds| - 1) + PlaceValue(ds[1..], radix)
  }

  /** The standard library's digit loop: left to right, an invalid digit is reported before
      the multiply-and-add that would overflow a byte. */
  function Accumulate(ds: string, radix: nat, acc: u8): (r: Result<u8, IntErrorKind>)
    requires 2 <= radix <= 36
    ensures r != Err(Empty)
    decreases |ds|
  {
    if ds == [] then Ok(acc)
    else match ToDigit(ds[0], radix)
      case None => Err(InvalidDigit)
      case Some(x) =>
        if acc * radix > 0xFF || acc * radix + x > 0xFF then Err(PosOverflow)
        else Accumulate(ds[1..], radix, acc * radix + x)
  }

  /** The digits of an unsigned numeral: an optional leading '+' is dropped. */
  function UnsignedDigits(src: string): string
  {
    if |src| >= 1 && src[0] == '+' then src[1..] else src
  }

  /** `u8::from_str_radix`: empty input, a lone sign, a bad digit and overflow are the errors. */
  function FromStrRadix(src: string, radix: nat): Result<u8, IntErrorKind>
    requires 2 <= radix <= 36
  {
    if src == [] then Err(Empty)
    else if |src| == 1 && (src[0] == '+' || src[0] == '-') then Err(InvalidDigit)
    else Accumulate(UnsignedDigits(src), radix, 0)
  }

  /** The radix a byte argument is written in and the text after its radix prefix. */
  function SelectRadix(input: string): (r: (string, nat))
    ensures 2 <= r.1 <= 36
  {
    if |input| >= 2 && (input[..2] == "0x" || input[..2] == "0X") then (input[2..], 16)
    else if |input| >= 2 && (input[..2] == "0b" || input[..2] == "0B") then (input[2..], 2)
    else (input, 10)
  }

  function ParseU8(input: string): Result<u8, string>
  {
    var (src, radix) := SelectRadix(input);
    match FromStrRadix(src, radix)
    case Ok(v) => Ok(v)
    case Err(k) => Err(IntErrorMessage(k))
  }

  lemma {:induction false} AccumulateMeaning(ds: string, radix: nat, acc: u8)
    requires 2 <= radix <= 36
    ensures Accumulate(ds, radix, acc).Ok?
      <==> AllDigits(ds, radix) && acc * Pow(radix, |ds|) + PlaceValue(ds, radix) <= 0xFF
    ensures Accumulate(ds, radix, acc).Ok? ==>
      AllDigits(ds, radix) && Accumulate(ds, radix, acc).value == acc * Pow(radix, |ds|) + PlaceValue(ds, radix)
    decreases |ds|
  {
    if ds != [] {
      var rest := ds[1..];
      AllDigitsFirst(ds, radix);
      match ToDigit(ds[0], radix)
      case None =>
      case Some(x) =>
        var p := Pow(radix, |rest|);
        var next := acc * radix + x;
        HornerStep(acc, radix, x, |rest|);
        if next <= 0xFF {
          AccumulateMeaning(rest, radix, next);
        } else if AllDigits(ds, radix) {
          AtLeastOnce(next, p);
        }
    }
  }

  lemma AllDigitsFirst(ds: string, radix: nat)
    requires 2 <= radix <= 36 && ds != []
    ensures AllDigits(ds, radix) <==> ToDigit(ds[0], radix).Some? && AllDigits(ds[1..], radix)
  {
    var rest := ds[1..];
    if ToDigit(ds[0], radix).Some? && AllDigits(rest, radix) {
      forall i | 0 <= i < |ds| ensures ToDigit(ds[i], radix).Some? {
        if i > 0 { assert ds[i] == rest[i - 1]; }
      }
    }
    if AllDigits(ds, radix) {
      forall i | 0 <= i < |rest| ensures ToDigit(rest[i], radix).Some? {
        assert rest[i] == ds[i + 1];
      }
    }
  }

  /** Shifting the accumulator one place and adding a digit, in place-value terms. */
  lemma HornerStep(acc: nat, radix: nat, x: nat, n: nat)
    ensures acc * Pow(radix, n + 1) + x * Pow(radix, n) == (acc * radix + x) * Pow(radix, n)
  {
    var p := Pow(radix, n);
    assert Pow(radix, n + 1) == radix * p;
    assert acc * (radix * p) == (acc * radix) * p;
    assert (acc * radix) * p + x * p == (acc * radix + x) * p;
  }

  lemma AtLeastOnce(a: nat, p: nat)
    requires p >= 1
    ensures a * p >= a
  {
  }

  /** `u8::from_str_radix` succeeds exactly on a non-empty string of digits of the radix,
      after an optional '+', whose value fits in a byte; that value is the result. */
  lemma FromStrRadixMeaning(src: string, radix: nat)
    requires 2 <= radix <= 36
    ensures var ds := UnsignedDigits(src);
      FromStrRadix(src, radix).Ok?
      <==> |ds| > 0 && AllDigits(ds, radix) && PlaceValue(ds, radix) <= 0xFF
    ensures var ds := UnsignedDigits(src);
      FromStrRadix(src, radix).Ok? ==> AllDigits(ds, radix) && FromStrRadix(src, radix).value == PlaceValue(ds, radix)
    ensures FromStrRadix(src, radix) == Err(Empty) <==> src == []
  {
    var ds := UnsignedDigits(src);
    AccumulateMeaning(ds, radix, 0);
    if |src| == 1 && src[0] == '-' {
      assert !AllDigits(ds, radix) by { assert ToDigit(ds[0], radix).None?; }
    }
  }

  /** `parse_u8` reads "0x"/"0X" as hexadecimal and "0b"/"0B" as binary, anything else as
      decimal, and succeeds exactly when the rest is a byte-sized numeral in that radix. */
  lemma ParseU8Meaning(input: string)
    ensures var (src, radix) := SelectRadix(input); var ds := UnsignedDigits(src);
      ParseU8(input).Ok? <==> |ds| > 0 && AllDigits(ds, radix) && PlaceValue(ds, radix) <= 0xFF
    ensures var (src, radix) := SelectRadix(input); var ds := UnsignedDigits(src);
      ParseU8(input).Ok? ==> AllDigits(ds, radix) && ParseU8(input).value == PlaceValue(ds, radix)
    ensures SelectRadix(input).1 == 16 <==> |input| >= 2 && input[..2] in {"0x", "0X"}
    ensures SelectRadix(input).1 == 2 <==> |input| >= 2 && input[..2] in {"0b", "0B"}
  {
    var (src, radix) := SelectRadix(input);
    FromStrRadixMeaning(src, radix);
  }

  /** The empty-string error: a bare radix prefix such as "0x" has no digits to parse. */
  lemma ParseU8Empty(input: string)
    ensures ParseU8(input) == Err(IntErrorMessage(Empty)) <==> input in {"", "0x", "0X", "0b", "0B"}
  {
    var (src, radix) := SelectRadix(input);
    FromStrRadixMeaning(src, radix);
    EmptyMessageIsDistinct();
    SelectRadixLeavesNothing(input);
  }

  /** The three messages are distinct, so the message tells the error kind. */
  lemma EmptyMessageIsDistinct()
    ensures IntErrorMessage(InvalidDigit) != IntErrorMessage(Empty)
    ensures IntErrorMessage(PosOverflow) != IntErrorMessage(Empty)
  {
    assert |IntErrorMessage(InvalidDigit)| != |IntErrorMessage(Empty)|;
    assert IntErrorMessage(PosOverflow)[0] != IntErrorMessage(Empty)[0];
  }

  lemma SelectRadixLeavesNothing(input: string)
    ensures SelectRadix(input).0 == [] <==> input in {"", "0x", "0X", "0b", "0B"}
  {
    if |input| >= 2 && SelectRadix(input).0 == [] {
      assert input == input[..2];
    }
  }

  // ---------------------------------------------------------------------------
  // Fixed-width ASCII fields (`AsciiChar<N>::from_str`)
  // ---------------------------------------------------------------------------

  datatype ArgError = InvalidAsciiString(limit: nat) | InvalidMbcType | InvalidExtension(piece: string)

  predicate IsAscii(s: string)
  {
    forall i :: 0 <= i < |s| ==> s[i] as int < 0x80
  }

  /** How a header field reads back: its characters up to the first NUL byte. */
  function FieldText(bytes: seq<u8>): string
    decreases |bytes|
  {
    if bytes == [] || bytes[0] == 0 then [] else [bytes[0] as char] + FieldText(bytes[1..])
  }

  /** An ASCII string of at most `n` characters becomes exactly `n` bytes: its own codes, then
      zeros; anything else is rejected. Reading the field back gives the string again when it
      contains no NUL. */
  method AsciiCharFromStr(s: string, n: nat) returns (r: Result<seq<u8>, ArgError>)
    ensures r.Ok? <==> IsAscii(s) && |s| <= n
    ensures r.Ok? ==> (
      && |r.value| == n
      && (forall i :: 0 <= i < |s| ==> r.value[i] == s[i] as int)
      && (forall i :: |s| <= i < n ==> r.value[i] == 0))
    ensures r.Ok? && '\0' !in s ==> FieldText(r.value) == s
    ensures r.Err? ==> r.error == InvalidAsciiString(n)
  {
    if !(IsAscii(s) && |s| <= n) {
      return Err(InvalidAsciiString(n));
    }
    var bytes := new u8[n](_ => 0);
    for i := 0 to |s|
      invariant forall k :: 0 <= k < i ==> bytes[k] == s[k] as int
      invariant forall k :: i <= k < n ==> bytes[k] == 0
    {
      bytes[i] := s[i] as int;
    }
    if '\0' !in s {
      FieldTextOfPadded(bytes[..], s);
    }
    return Ok(bytes[..]);
  }

  lemma {:induction false} FieldTextOfPadded(bytes: seq<u8>, s: string)
    requires |s| <= |bytes| && '\0' !in s
    requires forall i :: 0 <= i < |s| ==> bytes[i] == s[i] as int
    requires |s| < |bytes| ==> bytes[|s|] == 0
    ensures FieldText(bytes) == s
    decreases |s|
  {
    if s != [] {
      assert s[0] in s;
      assert bytes[0] as char == s[0];
      assert forall c :: c in s[1..] ==> c in s;
      FieldTextOfPadded(bytes[1..], s[1..]);
      assert s == [s[0]] + s[1..];
    }
  }

  // ---------------------------------------------------------------------------
  // Mapper types and their extensions (`MBCType`, `MBCExtension`)
  // ---------------------------------------------------------------------------

  datatype MbcType = Rom | Mbc1 | Mbc2 | Mmm01 | Mbc3 | Mbc5 | Mbc6 | Mbc7
                   | PocketCamera | BandaiTama5 | Huc1 | Huc3 | Tpp1

  const RAM: bv8 := 0x80
  const BATTERY: bv8 := 0x40
  const TIMER: bv8 := 0x20
  const RUMBLE: bv8 := 0x10
  const SENSOR: bv8 := 0x08
  const MULTIRUMBLE: bv8 := 0x04

  predicate IsExtensionFlag(e: bv8)
  {
    e == RAM || e == BATTERY || e == TIMER || e == RUMBLE || e == SENSOR || e == MULTIRUMBLE
  }

  /** The extensions each mapper supports. */
  function ValidExtensions(t: MbcType): bv8
  {
    match t
    case Rom | Mbc1 | Mmm01 => RAM | BATTERY
    case Mbc2 => BATTERY
    case Mbc3 => RAM | BATTERY | TIMER
    case Mbc5 => RAM | BATTERY | RUMBLE
    case Mbc6 | PocketCamera | BandaiTama5 | Huc3 => 0
    case Mbc7 => RAM | BATTERY | SENSOR | RUMBLE
    case Huc1 => RAM | BATTERY
    case Tpp1 => RAM | BATTERY | MULTIRUMBLE | RUMBLE
  }

  /** A set of extensions is allowed exactly when none of its flags is outside the mapper's set. */
  function CanHaveExtension(t: MbcType, e: bv8): (r: bool)
    ensures r <==> e & !ValidExtensions(t) == 0
  {
    ValidExtensions(t) & e == e
  }

  /** Which mapper supports which single extension. */
  lemma ExtensionTable(t: MbcType)
    ensures ValidExtensions(t) == 0 <==> t in {Mbc6, PocketCamera, BandaiTama5, Huc3}
    ensures CanHaveExtension(t, TIMER) <==> t == Mbc3
    ensures CanHaveExtension(t, SENSOR) <==> t == Mbc7
    ensures CanHaveExtension(t, MULTIRUMBLE) <==> t == Tpp1
    ensures CanHaveExtension(t, RUMBLE) <==> t in {Mbc5, Mbc7, Tpp1}
    ensures CanHaveExtension(t, BATTERY) <==> ValidExtensions(t) != 0
    ensures CanHaveExtension(t, RAM) <==> ValidExtensions(t) != 0 && t != Mbc2
    ensures ValidExtensions(t) & 0x03 == 0
  {
  }

  // ---------------------------------------------------------------------------
  // Mapper names (`MBC::from_str`)
  // ---------------------------------------------------------------------------

  datatype Mbc = Mbc(ty: MbcType, extensions: bv8)

  /** The outcome of parsing a mapper argument; `ExitsProcess` stands for the paths that end
      the program ("help", or an extension the mapper cannot have). */
  datatype Parse<+T> = Parsed(value: T) | Invalid(error: ArgError) | ExitsProcess

  function ToAsciiLower(c: char): char
  {
    if 'A' <= c <= 'Z' then (c as int + 32) as char else c
  }

  predicate EqIgnoreAsciiCase(a: string, b: string)
  {
    |a| == |b| && forall i :: 0 <= i < |a| ==> ToAsciiLower(a[i]) == ToAsciiLower(b[i])
  }

  predicate HasPrefixIgnoringCase(s: string, name: string)
  {
    |name| <= |s| && EqIgnoreAsciiCase(s[..|name|], name)
  }

  /** The name table as the source writes it: there is no entry for MBC7. */
  const SOURCE_MBC_NAMES: seq<(string, MbcType)> := [
    ("ROM_ONLY", Rom), ("ROM", Rom), ("MMM01", Mmm01), ("MBC1", Mbc1), ("MBC2", Mbc2),
    ("MBC3", Mbc3), ("MBC5", Mbc5), ("MBC6", Mbc6), ("POCKET_CAMERA", PocketCamera),
    ("BANDAI_TAMA5", BandaiTama5), ("HUC1", Huc1), ("HUC3", Huc3), ("TPP1", Tpp1)]

  /** The name table with the MBC7 entry the mapper table and the help text call for. */
  const MBC_NAMES: seq<(string, MbcType)> := [
    ("ROM_ONLY", Rom), ("ROM", Rom), ("MMM01", Mmm01), ("MBC1", Mbc1), ("MBC2", Mbc2),
    ("MBC3", Mbc3), ("MBC5", Mbc5), ("MBC6", Mbc6), ("MBC7", Mbc7), ("POCKET_CAMERA", PocketCamera),
    ("BANDAI_TAMA5", BandaiTama5), ("HUC1", Huc1), ("HUC3", Huc3), ("TPP1", Tpp1)]

  /** The first name of the table that prefixes the argument, ignoring ASCII case, decides the
      mapper; the rest of the argument is the extension list. */
  function MatchMbcType(names: seq<(string, MbcType)>, s: string): Option<(MbcType, string)>
  {
    MatchFrom(names, s, 0)
  }

  function MatchFrom(names: seq<(string, MbcType)>, s: string, k: nat): Option<(MbcType, string)>
    decreases |names| - k
  {
    if k >= |names| then None
    else if HasPrefixIgnoringCase(s, names[k].0) then Some((names[k].1, s[|names[k].0|..]))
    else MatchFrom(names, s, k + 1)
  }

  lemma {:induction false} MatchFromNone(names: seq<(string, MbcType)>, s: string, k: nat)
    ensures MatchFrom(names, s, k).None?
      <==> forall j :: k <= j < |names| ==> !HasPrefixIgnoringCase(s, names[j].0)
    decreases |names| - k
  {
    if k < |names| {
      MatchFromNone(names, s, k + 1);
    }
  }

  lemma {:induction false} MatchFromSome(names: seq<(string, MbcType)>, s: string, k: nat)
    requires MatchFrom(names, s, k).Some?
    ensures exists m :: (
      && k <= m < |names|
      && HasPrefixIgnoringCase(s, names[m].0)
      && (forall j :: k <= j < m ==> !HasPrefixIgnoringCase(s, names[j].0))
      && MatchFrom(names, s, k).value == (names[m].1, s[|names[m].0|..]))
    decreases |names| - k
  {
    if HasPrefixIgnoringCase(s, names[k].0) {
      assert MatchFrom(names, s, k).value == (names[k].1, s[|names[k].0|..]);
    } else {
      MatchFromSome(names, s, k + 1);
    }
  }

  /** The name table is searched in order and the first entry that prefixes the argument wins. */
  lemma MatchMbcTypeMeaning(names: seq<(string, MbcType)>, s: string)
    ensures MatchMbcType(names, s).None? <==> forall k :: 0 <= k < |names| ==> !HasPrefixIgnoringCase(s, names[k].0)
    ensures MatchMbcType(names, s).Some? ==> exists k :: (
      && 0 <= k < |names|
      && HasPrefixIgnoringCase(s, names[k].0)
      && (forall j :: 0 <= j < k ==> !HasPrefixIgnoringCase(s, names[j].0))
      && MatchMbcType(names, s).value == (names[k].1, s[|names[k].0|..]))
  {
    MatchFromNone(names, s, 0);
    if MatchMbcType(names, s).Some? {
      MatchFromSome(names, s, 0);
    }
  }

  /** A name is not a prefix of an argument that differs from it, ignoring case, at position `i`. */
  lemma NotPrefixAt(s: string, name: string, i: nat)
    requires i < |name| && i < |s| && ToAsciiLower(s[i]) != ToAsciiLower(name[i])
    ensures !HasPrefixIgnoringCase(s, name)
  {
    if |name| <= |s| {
      assert s[..|name|][i] == s[i];
    }
  }

  /** The source's table can never produce MBC7, so the MBC7 argument of the help text is
      rejected as an unknown mapper. */
  lemma SourceNamesOmitMbc7(s: string)
    ensures MbcSpec(SOURCE_MBC_NAMES, s).Parsed? ==> MbcSpec(SOURCE_MBC_NAMES, s).value.ty != Mbc7
    ensures MbcSpec(SOURCE_MBC_NAMES, "MBC7+SENSOR+RUMBLE+RAM+BATTERY") == Invalid(InvalidMbcType)
  {
    if MbcSpec(SOURCE_MBC_NAMES, s).Parsed? {
      MbcAccepted(SOURCE_MBC_NAMES, s);
      MatchMbcTypeMeaning(SOURCE_MBC_NAMES, s);
      SourceTableLacksMbc7();
    }
    SourceRejectsHelpArgument();
  }

  lemma SourceTableLacksMbc7()
    ensures forall k :: 0 <= k < |SOURCE_MBC_NAMES| ==> SOURCE_MBC_NAMES[k].1 != Mbc7
  {
  }

  lemma SourceRejectsHelpArgument()
    ensures MbcSpec(SOURCE_MBC_NAMES, "MBC7+SENSOR+RUMBLE+RAM+BATTERY") == Invalid(InvalidMbcType)
  {
    SourceRejectsMbc7Argument();
    assert !EqIgnoreAsciiCase("MBC7+SENSOR+RUMBLE+RAM+BATTERY", "help");
  }

  lemma SourceRejectsMbc7Argument()
    ensures MatchMbcType(SOURCE_MBC_NAMES, "MBC7+SENSOR+RUMBLE+RAM+BATTERY").None?
  {
    var help := "MBC7+SENSOR+RUMBLE+RAM+BATTERY";
    var names := SOURCE_MBC_NAMES;
    NotPrefixAt(help, names[12].0, 0);
    assert MatchFrom(names, help, 12).None?;
    NotPrefixAt(help, names[11].0, 0);
    assert MatchFrom(names, help, 11).None?;
    NotPrefixAt(help, names[10].0, 0);
    assert MatchFrom(names, help, 10).None?;
    NotPrefixAt(help, names[9].0, 0);
    assert MatchFrom(names, help, 9).None?;
    NotPrefixAt(help, names[8].0, 0);
    assert MatchFrom(names, help, 8).None?;
    NotPrefixAt(help, names[7].0, 3);
    assert MatchFrom(names, help, 7).None?;
    NotPrefixAt(help, names[6].0, 3);
    assert MatchFrom(names, help, 6).None?;
    NotPrefixAt(help, names[5].0, 3);
    assert MatchFrom(names, help, 5).None?;
    NotPrefixAt(help, names[4].0, 3);
    assert MatchFrom(names, help, 4).None?;
    NotPrefixAt(help, names[3].0, 3);
    assert MatchFrom(names, help, 3).None?;
    NotPrefixAt(help, names[2].0, 1);
    assert MatchFrom(names, help, 2).None?;
    NotPrefixAt(help, names[1].0, 0);
    assert MatchFrom(names, help, 1).None?;
    NotPrefixAt(help, names[0].0, 0);
  }

  /** With the corrected table, every mapper type has an entry, and the MBC7 argument of the
      help text is read as MBC7 followed by its extension list. */
  lemma CorrectedNamesCoverMbc7(t: MbcType)
    ensures exists k :: 0 <= k < |MBC_NAMES| && MBC_NAMES[k].1 == t
    ensures MatchMbcType(MBC_NAMES, "MBC7+SENSOR+RUMBLE+RAM+BATTERY") == Some((Mbc7, "+SENSOR+RUMBLE+RAM+BATTERY"))
  {
    var names := MBC_NAMES;
    match t {
      case Rom => assert names[0].1 == t;
      case Mbc1 => assert names[3].1 == t;
      case Mbc2 => assert names[4].1 == t;
      case Mmm01 => assert names[2].1 == t;
      case Mbc3 => assert names[5].1 == t;
      case Mbc5 => assert names[6].1 == t;
      case Mbc6 => assert names[7].1 == t;
      case Mbc7 => assert names[8].1 == t;
      case PocketCamera => assert names[9].1 == t;
      case BandaiTama5 => assert names[10].1 == t;
      case Huc1 => assert names[11].1 == t;
      case Huc3 => assert names[12].1 == t;
      case Tpp1 => assert names[13].1 == t;
    }
    CorrectedReadsMbc7Argument();
  }

  lemma CorrectedReadsMbc7Argument()
    ensures MatchMbcType(MBC_NAMES, "MBC7+SENSOR+RUMBLE+RAM+BATTERY") == Some((Mbc7, "+SENSOR+RUMBLE+RAM+BATTERY"))
  {
    var help := "MBC7+SENSOR+RUMBLE+RAM+BATTERY";
    CorrectedTableInsertsMbc7();
    SourceRejectsMbc7Argument();
    MatchFromNone(SOURCE_MBC_NAMES, help, 0);
    Mbc7HelpParts();
    InsertedEntryWins(SOURCE_MBC_NAMES, 8, ("MBC7", Mbc7), "+SENSOR+RUMBLE+RAM+BATTERY");
  }

  lemma Mbc7HelpParts()
    ensures "MBC7+SENSOR+RUMBLE+RAM+BATTERY" == "MBC7" + "+SENSOR+RUMBLE+RAM+BATTERY"
  {
  }

  /** The corrected table is the source's table with the MBC7 entry inserted after MBC6. */
  lemma CorrectedTableInsertsMbc7()
    ensures MBC_NAMES == SOURCE_MBC_NAMES[..8] + [("MBC7", Mbc7)] + SOURCE_MBC_NAMES[8..]
  {
  }

  /** An entry inserted into a table none of whose names prefixes the argument is the match. */
  lemma InsertedEntryWins(names: seq<(string, MbcType)>, p: nat, entry: (string, MbcType), rest: string)
    requires p <= |names|
    requires forall j :: 0 <= j < |names| ==> !HasPrefixIgnoringCase(entry.0 + rest, names[j].0)
    ensures MatchMbcType(names[..p] + [entry] + names[p..], entry.0 + rest) == Some((entry.1, rest))
  {
    var s := entry.0 + rest;
    var table := names[..p] + [entry] + names[p..];
    assert table[p] == entry;
    assert s[..|entry.0|] == entry.0 && s[|entry.0|..] == rest;
    assert EqIgnoreAsciiCase(s[..|entry.0|], entry.0);
    forall j | 0 <= j < p ensures !HasPrefixIgnoringCase(s, table[j].0) {
      assert table[j] == names[j];
    }
    MatchFromSkips(table, s, 0, p);
  }

  /** An entry inserted into a name table changes nothing for an argument it does not prefix:
      the MBC7 entry of the corrected table leaves every other argument parsed as before. */
  lemma InsertedEntryNeutral(names: seq<(string, MbcType)>, p: nat, entry: (string, MbcType), s: string)
    requires p <= |names|
    requires !HasPrefixIgnoringCase(s, entry.0)
    ensures MbcSpec(names[..p] + [entry] + names[p..], s) == MbcSpec(names, s)
  {
    InsertedEntrySkipped(names, p, entry, s, 0);
  }

  lemma {:induction false} InsertedEntrySkipped(names: seq<(string, MbcType)>, p: nat, entry: (string, MbcType), s: string, k: nat)
    requires k <= p <= |names|
    requires !HasPrefixIgnoringCase(s, entry.0)
    ensures MatchFrom(names[..p] + [entry] + names[p..], s, k) == MatchFrom(names, s, k)
    decreases p - k
  {
    var table := names[..p] + [entry] + names[p..];
    if k < p {
      assert table[k] == names[k];
      InsertedEntrySkipped(names, p, entry, s, k + 1);
    } else {
      assert table[p] == entry;
      EntriesAfterInsertion(names, p, entry, s, p);
    }
  }

  lemma {:induction false} EntriesAfterInsertion(names: seq<(string, MbcType)>, p: nat, entry: (string, MbcType), s: string, k: nat)
    requires p <= k <= |names|
    ensures MatchFrom(names[..p] + [entry] + names[p..], s, k + 1) == MatchFrom(names, s, k)
    decreases |names| - k
  {
    var table := names[..p] + [entry] + names[p..];
    if k < |names| {
      assert table[k + 1] == names[k];
      EntriesAfterInsertion(names, p, entry, s, k + 1);
    }
  }

  /** Entries that do not prefix the argument are skipped. */
  lemma {:induction false} MatchFromSkips(names: seq<(string, MbcType)>, s: string, k: nat, m: nat)
    requires k <= m <= |names|
    requires forall j :: k <= j < m ==> !HasPrefixIgnoringCase(s, names[j].0)
    ensures MatchFrom(names, s, k) == MatchFrom(names, s, m)
    decreases m - k
  {
    if k < m {
      MatchFromSkips(names, s, k + 1, m);
    }
  }

  // ---------------------------------------------------------------------------
  // Extension lists
  // ---------------------------------------------------------------------------

  predicate IsSeparator(c: char)
  {
    c == '+' || c == '_' || c == ' '
  }

  /** Splitting on '+', '_' and ' ': every separator ends a piece, so n separators give n + 1
      pieces, some of them possibly empty. */
  function Split(s: string): (pieces: seq<string>)
    ensures |pieces| >= 1
    ensures forall i, j :: 0 <= i < |pieces| && 0 <= j < |pieces[i]| ==> !IsSeparator(pieces[i][j])
    decreases |s|
  {
    if s == [] then [[]]
    else
      var rest := Split(s[1..]);
      if IsSeparator(s[0]) then [[]] + rest
      else [[s[0]] + rest[0]] + rest[1..]
  }

  /** A character that is not a separator joins the first piece of what follows it. */
  lemma SplitJoins(c: char, s: string)
    requires !IsSeparator(c)
    ensures Split([c] + s) == [[c] + Split(s)[0]] + Split(s)[1..]
  {
    assert ([c] + s)[1..] == s;
  }

  /** A separator starts a new, empty piece in front of what follows it. */
  lemma SplitBreaks(c: char, s: string)
    requires IsSeparator(c)
    ensures Split([c] + s) == [[]] + Split(s)
  {
    assert ([c] + s)[1..] == s;
  }

  function Concat(pieces: seq<string>): string
    decreases |pieces|
  {
    if pieces == [] then [] else pieces[0] + Concat(pieces[1..])
  }

  function WithoutSeparators(s: string): string
    decreases |s|
  {
    if s == [] then [] else (if IsSeparator(s[0]) then [] else [s[0]]) + WithoutSeparators(s[1..])
  }

  function SeparatorCount(s: string): nat
    decreases |s|
  {
    if s == [] then 0 else (if IsSeparator(s[0]) then 1 else 0) + SeparatorCount(s[1..])
  }

  /** Splitting loses only the separators: the pieces put together are the input without them. */
  lemma {:induction false} SplitLosesOnlySeparators(s: string)
    ensures Concat(Split(s)) == WithoutSeparators(s)
    ensures |Split(s)| == SeparatorCount(s) + 1
    decreases |s|
  {
    if s != [] {
      var rest := Split(s[1..]);
      SplitLosesOnlySeparators(s[1..]);
      if IsSeparator(s[0]) {
        assert ([[]] + rest)[1..] == rest;
      } else {
        var pieces := [[s[0]] + rest[0]] + rest[1..];
        assert pieces[1..] == rest[1..];
        assert Concat(rest) == rest[0] + Concat(rest[1..]);
        assert Concat(pieces) == [s[0]] + rest[0] + Concat(rest[1..]);
      }
    }
  }

  /** The separators of a string, in order. */
  function Separators(s: string): (cs: string)
    ensures |cs| == SeparatorCount(s)
    ensures forall i :: 0 <= i < |cs| ==> IsSeparator(cs[i])
    decreases |s|
  {
    if s == [] then [] else (if IsSeparator(s[0]) then [s[0]] else []) + Separators(s[1..])
  }

  /** Pieces put back together with the given separators between consecutive pieces. */
  function Interleave(pieces: seq<string>, seps: string): string
    requires |pieces| == |seps| + 1
    decreases |seps|
  {
    if seps == [] then pieces[0] else pieces[0] + [seps[0]] + Interleave(pieces[1..], seps[1..])
  }

  predicate NoSeparatorIn(pieces: seq<string>)
  {
    forall i, j :: 0 <= i < |pieces| && 0 <= j < |pieces[i]| ==> !IsSeparator(pieces[i][j])
  }

  /** Splitting is undone by putting each separator back between the pieces it divided. */
  lemma {:induction false} SplitRejoins(s: string)
    ensures |Split(s)| == |Separators(s)| + 1
    ensures Interleave(Split(s), Separators(s)) == s
    decreases |s|
  {
    SplitLosesOnlySeparators(s);
    if s != [] {
      var t := s[1..];
      var rest := Split(t);
      SplitRejoins(t);
      assert s == [s[0]] + t;
      if IsSeparator(s[0]) {
        assert Separators(s) == [s[0]] + Separators(t);
        assert ([[]] + rest)[1..] == rest;
      } else {
        assert Separators(s) == Separators(t);
        InterleaveExtendsFirst(rest, Separators(t), s[0]);
      }
    }
  }

  /** Growing the first piece at its front grows the joined string at its front. */
  lemma InterleaveExtendsFirst(pieces: seq<string>, seps: string, c: char)
    requires |pieces| == |seps| + 1
    ensures Interleave([[c] + pieces[0]] + pieces[1..], seps) == [c] + Interleave(pieces, seps)
  {
    var q := [[c] + pieces[0]] + pieces[1..];
    assert q[0] == [c] + pieces[0] && q[1..] == pieces[1..];
    if seps != [] {
      var tail := Interleave(pieces[1..], seps[1..]);
      assert ([c] + pieces[0]) + [seps[0]] + tail == [c] + (pieces[0] + [seps[0]] + tail);
    }
  }

  /** The split is the only way to cut a string into separator-free pieces at its separators:
      any such pieces that join back to the string are `Split`'s. */
  lemma SplitUnique(s: string, pieces: seq<string>)
    requires |pieces| == |Separators(s)| + 1 && NoSeparatorIn(pieces)
    requires Interleave(pieces, Separators(s)) == s
    ensures pieces == Split(s)
  {
    SplitRejoins(s);
    InterleaveUnique(pieces, Split(s), Separators(s));
  }

  lemma {:induction false} InterleaveUnique(ps: seq<string>, qs: seq<string>, seps: string)
    requires |ps| == |seps| + 1 && |qs| == |seps| + 1
    requires NoSeparatorIn(ps) && NoSeparatorIn(qs)
    requires forall i :: 0 <= i < |seps| ==> IsSeparator(seps[i])
    requires Interleave(ps, seps) == Interleave(qs, seps)
    ensures ps == qs
    decreases |seps|
  {
    if seps == [] {
      assert ps == [ps[0]] && qs == [qs[0]];
    } else {
      var x := Interleave(ps, seps);
      var p0, q0 := ps[0], qs[0];
      var restP, restQ := Interleave(ps[1..], seps[1..]), Interleave(qs[1..], seps[1..]);
      assert x == p0 + [seps[0]] + restP;
      assert x == q0 + [seps[0]] + restQ;
      FirstSeparatorAt(p0, seps[0], restP, q0, restQ);
      assert x[..|p0|] == p0 && x[..|q0|] == q0;
      assert x[|p0| + 1..] == restP && x[|q0| + 1..] == restQ;
      forall i, j | 0 <= i < |ps[1..]| && 0 <= j < |ps[1..][i]| ensures !IsSeparator(ps[1..][i][j]) {
        assert ps[1..][i] == ps[i + 1];
      }
      forall i, j | 0 <= i < |qs[1..]| && 0 <= j < |qs[1..][i]| ensures !IsSeparator(qs[1..][i][j]) {
        assert qs[1..][i] == qs[i + 1];
      }
      InterleaveUnique(ps[1..], qs[1..], seps[1..]);
      assert ps == [p0] + ps[1..] && qs == [q0] + qs[1..];
    }
  }

  /** Two separator-free words followed by the same separator in one string have equal length. */
  lemma FirstSeparatorAt(p: string, c: char, restP: string, q: string, restQ: string)
    requires IsSeparator(c)
    requires forall j :: 0 <= j < |p| ==> !IsSeparator(p[j])
    requires forall j :: 0 <= j < |q| ==> !IsSeparator(q[j])
    requires p + [c] + restP == q + [c] + restQ
    ensures |p| == |q|
  {
    NoEarlierSeparator(p, c, restP, q, restQ);
    NoEarlierSeparator(q, c, restQ, p, restP);
  }

  /** A separator-free word cannot end where a longer separator-free word is still running. */
  lemma NoEarlierSeparator(p: string, c: char, restP: string, q: string, restQ: string)
    requires IsSeparator(c)
    requires forall j :: 0 <= j < |q| ==> !IsSeparator(q[j])
    requires p + [c] + restP == q + [c] + restQ
    ensures |q| <= |p|
  {
    var x := p + [c] + restP;
    assert IsSeparator(x[|p|]);
  }

  /** The Unicode White_Space characters, which `str::trim` removes. */
  predicate IsWhiteSpace(c: char)
  {
    ('\t' <= c <= '\r') || c == ' ' || c == '\U{85}' || c == '\U{A0}' || c == '\U{1680}'
    || ('\U{2000}' <= c <= '\U{200A}') || c == '\U{2028}' || c == '\U{2029}'
    || c == '\U{202F}' || c == '\U{205F}' || c == '\U{3000}'
  }

  function TrimStart(s: string): (r: string)
    ensures |r| <= |s|
    decreases |s|
  {
    if s != [] && IsWhiteSpace(s[0]) then TrimStart(s[1..]) else s
  }

  function TrimEnd(s: string): (r: string)
    ensures |r| <= |s|
    decreases |s|
  {
    if s != [] && IsWhiteSpace(s[|s| - 1]) then TrimEnd(s[..|s| - 1]) else s
  }

  /** `str::trim`: white space removed from both ends. */
  function Trim(s: string): (r: string)
    ensures |r| <= |s|
  {
    TrimEnd(TrimStart(s))
  }

  /** `TrimStart` drops the leading white space and nothing else. */
  lemma {:induction false} TrimStartMeaning(s: string)
    ensures var r := TrimStart(s);
      && r == s[|s| - |r|..]
      && (forall i :: 0 <= i < |s| - |r| ==> IsWhiteSpace(s[i]))
      && (r != [] ==> !IsWhiteSpace(r[0]))
    decreases |s|
  {
    if s != [] && IsWhiteSpace(s[0]) {
      var rest := s[1..];
      TrimStartMeaning(rest);
      var r := TrimStart(rest);
      assert rest[|rest| - |r|..] == s[|s| - |r|..];
      forall i | 0 <= i < |s| - |r| ensures IsWhiteSpace(s[i]) {
        if i > 0 { assert s[i] == rest[i - 1]; }
      }
    }
  }

  /** `TrimEnd` drops the trailing white space and nothing else. */
  lemma {:induction false} TrimEndMeaning(s: string)
    ensures var r := TrimEnd(s);
      && r == s[..|r|]
      && (forall i :: |r| <= i < |s| ==> IsWhiteSpace(s[i]))
      && (r != [] ==> !IsWhiteSpace(r[|r| - 1]))
    decreases |s|
  {
    if s != [] && IsWhiteSpace(s[|s| - 1]) {
      var rest := s[..|s| - 1];
      TrimEndMeaning(rest);
      var r := TrimEnd(rest);
      assert rest[..|r|] == s[..|r|];
      forall i | |r| <= i < |s| ensures IsWhiteSpace(s[i]) {
        if i < |s| - 1 { assert s[i] == rest[i]; }
      }
    }
  }

  /** What `Trim` removes is white space at either end and nothing else: the result is the
      slice of the input that starts after the leading white space, and it neither starts
      nor ends with white space. */
  lemma TrimMeaning(s: string)
    ensures var i := |s| - |TrimStart(s)|; var r := Trim(s);
      && i + |r| <= |s|
      && r == s[i..i + |r|]
      && (forall k :: 0 <= k < i ==> IsWhiteSpace(s[k]))
      && (forall k :: i + |r| <= k < |s| ==> IsWhiteSpace(s[k]))
      && (r != [] ==> !IsWhiteSpace(r[0]) && !IsWhiteSpace(r[|r| - 1]))
  {
    var t := TrimStart(s);
    TrimStartMeaning(s);
    TrimEndMeaning(t);
    TrimEndKeepsFirst(t);
    SliceOfSuffix(s, t, TrimEnd(t));
    TrimDropsTrailing(s, t, TrimEnd(t));
  }

  lemma TrimEndKeepsFirst(t: string)
    requires t != [] ==> !IsWhiteSpace(t[0])
    ensures TrimEnd(t) != [] ==> !IsWhiteSpace(TrimEnd(t)[0])
  {
    TrimEndMeaning(t);
  }

  lemma SliceOfSuffix(s: string, t: string, r: string)
    requires |t| <= |s| && t == s[|s| - |t|..] && |r| <= |t| && r == t[..|r|]
    ensures r == s[|s| - |t|..|s| - |t| + |r|]
  {
  }

  lemma TrimDropsTrailing(s: string, t: string, r: string)
    requires |t| <= |s| && t == s[|s| - |t|..] && |r| <= |t|
    requires forall k :: |r| <= k < |t| ==> IsWhiteSpace(t[k])
    ensures forall k :: |s| - |t| + |r| <= k < |s| ==> IsWhiteSpace(s[k])
  {
    var i := |s| - |t|;
    forall k | i + |r| <= k < |s| ensures IsWhiteSpace(s[k]) {
      assert s[k] == t[k - i];
    }
  }

  /** The extension a piece names, compared ignoring ASCII case. */
  function ExtensionNamed(piece: string): (r: Option<bv8>)
    ensures r.Some? ==> IsExtensionFlag(r.value)
  {
    if EqIgnoreAsciiCase(piece, "RAM") then Some(RAM)
    else if EqIgnoreAsciiCase(piece, "BATTERY") then Some(BATTERY)
    else if EqIgnoreAsciiCase(piece, "TIMER") then Some(TIMER)
    else if EqIgnoreAsciiCase(piece, "RUMBLE") then Some(RUMBLE)
    else if EqIgnoreAsciiCase(piece, "SENSOR") then Some(SENSOR)
    else if EqIgnoreAsciiCase(piece, "MULTIRUMBLE") then Some(MULTIRUMBLE)
    else None
  }

  /** A piece of the extension list after trimming: blank, naming an extension, or unknown. */
  datatype Piece = Blank | Named(flag: bv8) | Unknown(text: string)

  function Classify(piece: string): (k: Piece)
    ensures k.Named? ==> IsExtensionFlag(k.flag)
    ensures k.Unknown? ==> k.text == Trim(piece) && k.text != []
  {
    var p := Trim(piece);
    if p == [] then Blank
    else match ExtensionNamed(p)
      case None => Unknown(p)
      case Some(e) => Named(e)
  }

  function Classified(pieces: seq<string>): (ks: seq<Piece>)
    ensures |ks| == |pieces|
    ensures forall i :: 0 <= i < |pieces| ==> ks[i] == Classify(pieces[i])
  {
    seq(|pieces|, i requires 0 <= i < |pieces| => Classify(pieces[i]))
  }

  /** A piece is acceptable for a mapper when it is blank or names an extension the mapper can have. */
  predicate PieceOk(t: MbcType, k: Piece)
  {
    k.Blank? || (k.Named? && CanHaveExtension(t, k.flag))
  }

  /** The extension list read piece by piece: the first piece that is not acceptable decides
      the outcome; otherwise the flags of all pieces are joined. */
  function ExtensionsOf(t: MbcType, ks: seq<Piece>): Parse<bv8>
    decreases |ks|
  {
    if ks == [] then Parsed(0 as bv8)
    else match ExtensionsOf(t, ks[..|ks| - 1])
      case Parsed(acc) => (
        match ks[|ks| - 1]
        case Blank => Parsed(acc)
        case Unknown(p) => Invalid(InvalidExtension(p))
        case Named(e) => if CanHaveExtension(t, e) then Parsed(acc | e) else ExitsProcess)
      case failed => failed
  }

  /** `MBC::from_str` over a given name table: `SOURCE_MBC_NAMES` gives the function as written,
      `MBC_NAMES` the corrected one. */
  function MbcSpec(names: seq<(string, MbcType)>, s: string): Parse<Mbc>
  {
    if EqIgnoreAsciiCase(s, "help") then ExitsProcess
    else
      var m := MatchMbcType(names, s);
      if m.None? then Invalid(InvalidMbcType)
      else
        var e := ExtensionsOf(m.value.0, Classified(Split(m.value.1)));
        if e.Parsed? then Parsed(Mbc(m.value.0, e.value))
        else if e.Invalid? then Invalid(e.error)
        else ExitsProcess
  }

  /** `MBC::from_str` over a name table: `SOURCE_MBC_NAMES` as written, `MBC_NAMES` corrected. */
  method MbcFromStr(names: seq<(string, MbcType)>, s: string) returns (r: Parse<Mbc>)
    ensures r == MbcSpec(names, s)
  {
    if EqIgnoreAsciiCase(s, "help") {
      return ExitsProcess;
    }
    var m := MatchMbcType(names, s);
    if m.None? {
      return Invalid(InvalidMbcType);
    }
    var (ty, remaining) := m.value;
    var pieces := Split(remaining);
    ghost var ks := Classified(pieces);
    var extensions: bv8 := 0;
    for i := 0 to |pieces|
      invariant ExtensionsOf(ty, ks[..i]) == Parsed(extensions)
    {
      ExtensionsStep(ty, ks, i);
      assert ks[i] == Classify(pieces[i]);
      var piece := Trim(pieces[i]);
      if piece != [] {
        var named := ExtensionNamed(piece);
        if named.None? {
          ExtensionsFailureSticks(ty, ks, i + 1);
          return Invalid(InvalidExtension(piece));
        }
        if !CanHaveExtension(ty, named.value) {
          ExtensionsFailureSticks(ty, ks, i + 1);
          return ExitsProcess;
        }
        extensions := extensions | named.value;
      }
    }
    assert ks[..|ks|] == ks;
    return Parsed(Mbc(ty, extensions));
  }

  /** Reading one more piece after an accepted prefix. */
  lemma ExtensionsStep(t: MbcType, ks: seq<Piece>, i: nat)
    requires i < |ks| && ExtensionsOf(t, ks[..i]).Parsed?
    ensures ExtensionsOf(t, ks[..i + 1]) ==
      if ks[i].Blank? then ExtensionsOf(t, ks[..i])
      else if ks[i].Unknown? then Invalid(InvalidExtension(ks[i].text))
      else if CanHaveExtension(t, ks[i].flag) then Parsed(ExtensionsOf(t, ks[..i]).value | ks[i].flag)
      else ExitsProcess
  {
    assert ks[..i + 1][..i] == ks[..i];
  }

  /** Once a prefix of the pieces has failed, the whole list fails the same way. */
  lemma {:induction false} ExtensionsFailureSticks(t: MbcType, ks: seq<Piece>, n: nat)
    requires n <= |ks| && !ExtensionsOf(t, ks[..n]).Parsed?
    ensures ExtensionsOf(t, ks) == ExtensionsOf(t, ks[..n])
    decreases |ks| - n
  {
    if n < |ks| {
      assert ks[..n + 1][..n] == ks[..n];
      ExtensionsFailureSticks(t, ks, n + 1);
    } else {
      assert ks[..n] == ks;
    }
  }

  /** The list is accepted exactly when every piece is acceptable; the flags are then all
      allowed for the mapper and the two low bits are never set. */
  lemma {:induction false} ExtensionsAccepted(t: MbcType, ks: seq<Piece>)
    ensures ExtensionsOf(t, ks).Parsed? <==> forall i :: 0 <= i < |ks| ==> PieceOk(t, ks[i])
    ensures ExtensionsOf(t, ks).Parsed? ==>
      CanHaveExtension(t, ExtensionsOf(t, ks).value) && ExtensionsOf(t, ks).value & 0x03 == 0
    decreases |ks|
  {
    if ks != [] {
      var p := ks[..|ks| - 1];
      ExtensionsAccepted(t, p);
      assert forall i :: 0 <= i < |p| ==> p[i] == ks[i];
      ExtensionTable(t);
    }
  }

  /** A flag is in the accepted value exactly when some piece names it. */
  lemma {:induction false} ExtensionsUnion(t: MbcType, ks: seq<Piece>, flag: bv8)
    requires IsExtensionFlag(flag) && ExtensionsOf(t, ks).Parsed?
    requires forall i :: 0 <= i < |ks| && ks[i].Named? ==> IsExtensionFlag(ks[i].flag)
    ensures ExtensionsOf(t, ks).value & flag != 0 <==> exists i :: 0 <= i < |ks| && ks[i] == Named(flag)
    decreases |ks|
  {
    if ks != [] {
      var n := |ks| - 1;
      var p := ks[..n];
      assert forall i :: 0 <= i < n ==> p[i] == ks[i];
      ExtensionsUnion(t, p, flag);
      if exists i :: 0 <= i < |ks| && ks[i] == Named(flag) {
        var i :| 0 <= i < |ks| && ks[i] == Named(flag);
        if i < n { assert p[i] == Named(flag); }
      }
    }
  }

  /** The first piece that is not acceptable decides: an unknown name is reported with the
      trimmed piece, a known name the mapper cannot have ends the program. */
  lemma ExtensionsFirstFailure(t: MbcType, ks: seq<Piece>, i: nat)
    requires i < |ks| && !PieceOk(t, ks[i])
    requires forall j :: 0 <= j < i ==> PieceOk(t, ks[j])
    ensures ExtensionsOf(t, ks) == if ks[i].Unknown? then Invalid(InvalidExtension(ks[i].text)) else ExitsProcess
  {
    var q := ks[..i + 1];
    assert q[..i] == ks[..i];
    ExtensionsAccepted(t, ks[..i]);
    ExtensionsFailureSticks(t, ks, i + 1);
  }

  /** An accepted argument names its mapper by the first matching table entry, and carries only
      extensions that mapper can have. */
  lemma MbcAccepted(names: seq<(string, MbcType)>, s: string)
    requires MbcSpec(names, s).Parsed?
    ensures MatchMbcType(names, s).Some? && MatchMbcType(names, s).value.0 == MbcSpec(names, s).value.ty
    ensures CanHaveExtension(MbcSpec(names, s).value.ty, MbcSpec(names, s).value.extensions)
  {
    var m := MatchMbcType(names, s);
    var ks := Classified(Split(m.value.1));
    ExtensionsAccepted(m.value.0, ks);
  }

  /** The "ROM_ONLY" entry is tried before "ROM", so its remainder does not start with "_ONLY". */
  lemma RomOnlyBeforeRom()
    ensures MbcSpec(SOURCE_MBC_NAMES, "rom_only+ram") == Parsed(Mbc(Rom, RAM))
    ensures MbcSpec(MBC_NAMES, "rom_only+ram") == Parsed(Mbc(Rom, RAM))
  {
    assert !EqIgnoreAsciiCase("rom_only+ram", "help");
    RomOnlyMatches();
    RamExtensionList();
    Mbc7EntryNeutral("rom_only+ram", 0);
  }

  /** The MBC7 entry of the corrected table does not change the reading of an argument that
      differs from "MBC7", ignoring case, at position `i`. */
  lemma Mbc7EntryNeutral(s: string, i: nat)
    requires i < 4 && i < |s| && ToAsciiLower(s[i]) != ToAsciiLower(MBC_NAMES[8].0[i])
    ensures MbcSpec(SOURCE_MBC_NAMES, s) == MbcSpec(MBC_NAMES, s)
  {
    CorrectedTableInsertsMbc7();
    NotPrefixAt(s, MBC_NAMES[8].0, i);
    InsertedEntryNeutral(SOURCE_MBC_NAMES, 8, ("MBC7", Mbc7), s);
  }

  lemma RamExtensionList()
    ensures ExtensionsOf(Rom, Classified(Split("+ram"))) == Parsed(RAM)
  {
    assert "+ram" == ['+'] + "ram";
    SplitAfterSeparator('+', "ram");
    ClassifyBlank();
    ClassifyRam();
    var ks := Classified(Split("+ram"));
    assert ks[0] == Blank && ks[1] == Named(RAM);
    ExtensionsAfterBlank(Rom, ks);
    SingleRam();
  }

  lemma SingleRam()
    ensures ExtensionsOf(Rom, [Named(RAM)]) == Parsed(RAM)
  {
    assert CanHaveExtension(Rom, RAM);
    assert [Named(RAM)][..0] == [];
  }

  /** A two-piece list whose first piece is blank is decided by its second piece alone. */
  lemma ExtensionsAfterBlank(t: MbcType, ks: seq<Piece>)
    requires |ks| == 2 && ks[0] == Blank
    ensures ExtensionsOf(t, ks) == ExtensionsOf(t, [ks[1]])
  {
    assert ks[..1] == [Blank];
    assert [Blank][..0] == [];
    assert [ks[1]][..0] == [];
  }

  lemma RomOnlyMatches()
    ensures MatchMbcType(MBC_NAMES, "rom_only+ram") == Some((Rom, "+ram"))
  {
    var arg := "rom_only+ram";
    assert arg[..8] == "rom_only" && arg[8..] == "+ram";
    assert HasPrefixIgnoringCase(arg, MBC_NAMES[0].0);
  }

  /** A separator followed by a word without separators splits into an empty piece and the word. */
  lemma SplitAfterSeparator(c: char, w: string)
    requires IsSeparator(c)
    requires forall i :: 0 <= i < |w| ==> !IsSeparator(w[i])
    ensures Split([c] + w) == ["", w]
  {
    SplitWordThen([], c, w);
    SplitWord(w);
    assert [] + [c] + w == [c] + w;
  }

  lemma ClassifyBlank()
    ensures Classify("") == Blank
  {
    assert TrimStart("") == "";
    assert TrimEnd("") == "";
  }

  lemma ClassifyRam()
    ensures Classify("ram") == Named(RAM)
  {
    assert !IsWhiteSpace('r') && !IsWhiteSpace('m');
    assert TrimStart("ram") == "ram";
    assert TrimEnd("ram") == "ram";
    assert EqIgnoreAsciiCase("ram", "RAM");
  }

  /** With the corrected table, the MBC7 argument of the help text is accepted with the four
      extensions it lists. */
  lemma CorrectedAcceptsMbc7Argument()
    ensures MbcSpec(MBC_NAMES, "MBC7+SENSOR+RUMBLE+RAM+BATTERY") == Parsed(Mbc(Mbc7, SENSOR | RUMBLE | RAM | BATTERY))
  {
    CorrectedReadsMbc7Argument();
    assert !EqIgnoreAsciiCase("MBC7+SENSOR+RUMBLE+RAM+BATTERY", "help");
    Mbc7ExtensionList();
  }

  lemma Mbc7ExtensionList()
    ensures ExtensionsOf(Mbc7, Classified(Split("+SENSOR+RUMBLE+RAM+BATTERY"))) == Parsed(SENSOR | RUMBLE | RAM | BATTERY)
  {
    SplitMbc7Extensions();
    Mbc7Pieces(["", "SENSOR", "RUMBLE", "RAM", "BATTERY"]);
  }

  lemma Mbc7Pieces(pieces: seq<string>)
    requires pieces == ["", "SENSOR", "RUMBLE", "RAM", "BATTERY"]
    ensures ExtensionsOf(Mbc7, Classified(pieces)) == Parsed(SENSOR | RUMBLE | RAM | BATTERY)
  {
    ClassifyBlank();
    ClassifySensor(pieces[1]);
    ClassifyRumble(pieces[2]);
    ClassifyRamUpper(pieces[3]);
    ClassifyBattery(pieces[4]);
    Mbc7Flags(Classified(pieces));
  }

  lemma ClassifySensor(w: string)
    requires w == "SENSOR"
    ensures Classify(w) == Named(SENSOR)
  {
    NamedSensor(w);
    ClassifyName(w);
  }

  lemma NamedSensor(w: string)
    requires w == "SENSOR"
    ensures ExtensionNamed(w) == Some(SENSOR)
  {
    assert |w| == 6;
    assert !EqIgnoreAsciiCase(w, "RUMBLE") by { assert ToAsciiLower(w[0]) != ToAsciiLower("RUMBLE"[0]); }
    assert EqIgnoreAsciiCase(w, "SENSOR");
  }

  lemma ClassifyRumble(w: string)
    requires w == "RUMBLE"
    ensures Classify(w) == Named(RUMBLE)
  {
    assert EqIgnoreAsciiCase(w, "RUMBLE");
    ClassifyName(w);
  }

  lemma ClassifyRamUpper(w: string)
    requires w == "RAM"
    ensures Classify(w) == Named(RAM)
  {
    assert EqIgnoreAsciiCase(w, "RAM");
    ClassifyName(w);
  }

  lemma ClassifyBattery(w: string)
    requires w == "BATTERY"
    ensures Classify(w) == Named(BATTERY)
  {
    assert EqIgnoreAsciiCase(w, "BATTERY");
    ClassifyName(w);
  }

  lemma Mbc7Flags(ks: seq<Piece>)
    requires |ks| == 5 && ks[0] == Blank && ks[1] == Named(SENSOR) && ks[2] == Named(RUMBLE)
    requires ks[3] == Named(RAM) && ks[4] == Named(BATTERY)
    ensures ExtensionsOf(Mbc7, ks) == Parsed(SENSOR | RUMBLE | RAM | BATTERY)
  {
    assert ks[..0] == [];
    ExtensionsStep(Mbc7, ks, 0);
    ExtensionsStep(Mbc7, ks, 1);
    ExtensionsStep(Mbc7, ks, 2);
    ExtensionsStep(Mbc7, ks, 3);
    ExtensionsStep(Mbc7, ks, 4);
    assert ks[..5] == ks;
  }

  lemma SplitMbc7Extensions()
    ensures Split("+SENSOR+RUMBLE+RAM+BATTERY") == ["", "SENSOR", "RUMBLE", "RAM", "BATTERY"]
  {
    assert "+SENSOR+RUMBLE+RAM+BATTERY" == ['+'] + ("SENSOR" + ['+'] + ("RUMBLE" + ['+'] + ("RAM" + ['+'] + "BATTERY")));
    SplitFourWords("SENSOR", "RUMBLE", "RAM", "BATTERY");
  }

  /** Four words without separators, each after a '+', split into an empty piece and the words. */
  lemma SplitFourWords(a: string, b: string, c: string, d: string)
    requires forall i :: 0 <= i < |a| ==> !IsSeparator(a[i])
    requires forall i :: 0 <= i < |b| ==> !IsSeparator(b[i])
    requires forall i :: 0 <= i < |c| ==> !IsSeparator(c[i])
    requires forall i :: 0 <= i < |d| ==> !IsSeparator(d[i])
    ensures Split(['+'] + (a + ['+'] + (b + ['+'] + (c + ['+'] + d)))) == ["", a, b, c, d]
  {
    var r3 := c + ['+'] + d;
    var r2 := b + ['+'] + r3;
    var r1 := a + ['+'] + r2;
    SplitWord(d);
    SplitWordThen(c, '+', d);
    SplitWordThen(b, '+', r3);
    SplitWordThen(a, '+', r2);
    SplitWordThen([], '+', r1);
    assert [] + ['+'] + r1 == ['+'] + r1;
  }

  /** A word without separators followed by a separator becomes the first piece. */
  lemma {:induction false} SplitWordThen(w: string, c: char, rest: string)
    requires forall i :: 0 <= i < |w| ==> !IsSeparator(w[i])
    requires IsSeparator(c)
    ensures Split(w + [c] + rest) == [w] + Split(rest)
    decreases |w|
  {
    if w == [] {
      assert w + [c] + rest == [c] + rest;
      SplitBreaks(c, rest);
    } else {
      SplitWordThen(w[1..], c, rest);
      assert w + [c] + rest == [w[0]] + (w[1..] + [c] + rest);
      SplitJoins(w[0], w[1..] + [c] + rest);
      assert [w[0]] + w[1..] == w;
    }
  }

  /** A word without separators is a single piece. */
  lemma {:induction false} SplitWord(w: string)
    requires forall i :: 0 <= i < |w| ==> !IsSeparator(w[i])
    ensures Split(w) == [w]
    decreases |w|
  {
    if w != [] {
      SplitWord(w[1..]);
      assert [w[0]] + w[1..] == w;
    }
  }

  /** A word without white space that names an extension is classified by that name. */
  lemma ClassifyName(w: string)
    requires w != [] && forall i :: 0 <= i < |w| ==> !IsWhiteSpace(w[i])
    requires ExtensionNamed(w).Some?
    ensures Classify(w) == Named(ExtensionNamed(w).value)
  {
    assert TrimStart(w) == w;
    assert TrimEnd(w) == w;
  }

  /** The version suffix the help text shows for TPP1 is read as an unknown extension "1.0". */
  lemma Tpp1VersionRejected()
    ensures MbcSpec(SOURCE_MBC_NAMES, "TPP1_1.0") == Invalid(InvalidExtension("1.0"))
    ensures MbcSpec(MBC_NAMES, "TPP1_1.0") == Invalid(InvalidExtension("1.0"))
  {
    Tpp1Matches();
    assert !EqIgnoreAsciiCase("TPP1_1.0", "help");
    VersionExtensionList();
    Mbc7EntryNeutral("TPP1_1.0", 0);
  }

  lemma VersionExtensionList()
    ensures ExtensionsOf(Tpp1, Classified(Split("_1.0"))) == Invalid(InvalidExtension("1.0"))
  {
    assert "_1.0" == ['_'] + "1.0";
    SplitAfterSeparator('_', "1.0");
    ClassifyBlank();
    ClassifyVersion();
    var ks := Classified(["", "1.0"]);
    assert ks[0] == Blank && ks[1] == Unknown("1.0");
    ExtensionsAfterBlank(Tpp1, ks);
  }

  lemma Tpp1Matches()
    ensures MatchMbcType(MBC_NAMES, "TPP1_1.0") == Some((Tpp1, "_1.0"))
  {
    var arg := "TPP1_1.0";
    var names := MBC_NAMES;
    assert arg[..4] == "TPP1" && arg[4..] == "_1.0";
    assert HasPrefixIgnoringCase(arg, names[13].0);
    assert MatchFrom(names, arg, 13) == Some((Tpp1, "_1.0"));
    NotPrefixAt(arg, names[12].0, 0);
    assert MatchFrom(names, arg, 12) == Some((Tpp1, "_1.0"));
    NotPrefixAt(arg, names[11].0, 0);
    assert MatchFrom(names, arg, 11) == Some((Tpp1, "_1.0"));
    NotPrefixAt(arg, names[10].0, 0);
    assert MatchFrom(names, arg, 10) == Some((Tpp1, "_1.0"));
    NotPrefixAt(arg, names[9].0, 1);
    assert MatchFrom(names, arg, 9) == Some((Tpp1, "_1.0"));
    NotPrefixAt(arg, names[8].0, 0);
    assert MatchFrom(names, arg, 8) == Some((Tpp1, "_1.0"));
    NotPrefixAt(arg, names[7].0, 0);
    assert MatchFrom(names, arg, 7) == Some((Tpp1, "_1.0"));
    NotPrefixAt(arg, names[6].0, 0);
    assert MatchFrom(names, arg, 6) == Some((Tpp1, "_1.0"));
    NotPrefixAt(arg, names[5].0, 0);
    assert MatchFrom(names, arg, 5) == Some((Tpp1, "_1.0"));
    NotPrefixAt(arg, names[4].0, 0);
    assert MatchFrom(names, arg, 4) == Some((Tpp1, "_1.0"));
    NotPrefixAt(arg, names[3].0, 0);
    assert MatchFrom(names, arg, 3) == Some((Tpp1, "_1.0"));
    NotPrefixAt(arg, names[2].0, 0);
    assert MatchFrom(names, arg, 2) == Some((Tpp1, "_1.0"));
    NotPrefixAt(arg, names[1].0, 0);
    assert MatchFrom(names, arg, 1) == Some((Tpp1, "_1.0"));
    NotPrefixAt(arg, names[0].0, 0);
    assert MatchFrom(names, arg, 0) == Some((Tpp1, "_1.0"));
  }

  lemma ClassifyVersion()
    ensures Classify("1.0") == Unknown("1.0")
  {
    assert !IsWhiteSpace('1') && !IsWhiteSpace('0');
    assert TrimStart("1.0") == "1.0";
    assert TrimEnd("1.0") == "1.0";
    assert ExtensionNamed("1.0") == None;
  }
}
