/** The static helpers of the shell extension's `NativeMethods` class:
    shell flag constants, word extraction from a verb address, and the choice
    between the ANSI and the Unicode verb of an invoke-command record. */
module NativeMethods {
  import opened Wrappers

  /** An `IntPtr` of a 64-bit process, read as an unsigned number. */
  const AddressLimit: nat := 0x1_0000_0000_0000_0000
  type Ptr = p: nat | p < AddressLimit

  const Null: Ptr := 0

  const CMF_DEFAULTONLY: bv32 := 0x0000_0001
  const MF_BYPOSITION: bv32 := 0x0000_0400
  const GCS_HELPTEXTW: bv32 := 0x0000_0005
  const CMIC_MASK_UNICODE: bv32 := 0x0000_4000
  const MaxPath: nat := 1024

  /** `sizeof(CMINVOKECOMMANDINFOEX)` in a 64-bit process. */
  const InvokeCommandInfoExSize: int := 104

  /** The fields of `CMINVOKECOMMANDINFO(EX)` the extension looks at.
      `ansiVerb` is the text `PtrToStringAnsi` reads at `lpVerb`, and
      `unicodeVerb` the text `PtrToStringUni` reads at `lpVerbW`; each is only
      consulted when its address is a non-null string address. */
  datatype InvokeCommandInfo = InvokeCommandInfo(
    cbSize: int,
    fMask: bv32,
    lpVerb: Ptr,
    lpVerbW: Ptr,
    ansiVerb: string,
    unicodeVerb: string)

  /** `value & 0xFFFF` */
  function LowWord(value: Ptr): (w: nat)
    ensures w < 0x1_0000
  {
    value % 0x1_0000
  }

  /** `(value >> 16) & 0xFFFF` */
  function HighWord(value: Ptr): (w: nat)
    ensures w < 0x1_0000
  {
    (value / 0x1_0000) % 0x1_0000
  }

  /** The two words together are exactly the low 32 bits of the address. */
  lemma WordsMakeLow32Bits(value: Ptr)
    ensures value % 0x1_0000_0000 == HighWord(value) * 0x1_0000 + LowWord(value)
  {
    var q := value / 0x1_0000;
    var top := q / 0x1_0000;
    assert value == top * 0x1_0000_0000 + (HighWord(value) * 0x1_0000 + LowWord(value));
  }

  /** A verb is an integer command offset (MAKEINTRESOURCE style) when its
      high word is zero; otherwise it points at a verb string. Only bits
      16..31 are tested: the low 32 bits form a number below 2^16, and bits
      32..63 play no part. */
  predicate IsVerbIdentifier(value: Ptr): (isIdentifier: bool)
    ensures isIdentifier <==> value % 0x1_0000_0000 < 0x1_0000
  {
    WordsMakeLow32Bits(value);
    HighWord(value) == 0
  }

  /** The Unicode verb when the caller flags `CMIC_MASK_UNICODE` and supplies
      `lpVerbW`; else the ANSI verb when `lpVerb` is non-null; else null. */
  function ResolveVerb(info: InvokeCommandInfo): (verb: Option<string>)
    ensures verb.None? <==>
              info.lpVerb == Null &&
              (info.fMask & CMIC_MASK_UNICODE == 0 || info.lpVerbW == Null)
    ensures verb.Some? ==> verb.value == info.unicodeVerb || verb.value == info.ansiVerb
    ensures info.fMask & CMIC_MASK_UNICODE != 0 && info.lpVerbW != Null ==> verb == Some(info.unicodeVerb)
    ensures info.lpVerb != Null && (info.fMask & CMIC_MASK_UNICODE == 0 || info.lpVerbW == Null) ==>
              verb == Some(info.ansiVerb)
  {
    if info.fMask & CMIC_MASK_UNICODE != 0 && info.lpVerbW != Null then
      Some(info.unicodeVerb)
    else if info.lpVerb != Null then
      Some(info.ansiVerb)
    else
      None
  }

  /** A flagged, present Unicode verb wins: the ANSI address and its text are
      then irrelevant. */
  lemma UnicodeVerbTakesPrecedence(info: InvokeCommandInfo, lpVerb: Ptr, ansiVerb: string)
    requires info.fMask & CMIC_MASK_UNICODE != 0 && info.lpVerbW != Null
    ensures ResolveVerb(info) == Some(info.unicodeVerb)
    ensures ResolveVerb(info.(lpVerb := lpVerb, ansiVerb := ansiVerb)) == ResolveVerb(info)
  {
  }

  /** Without the Unicode flag, or without `lpVerbW`, the ANSI verb is read
      whenever `lpVerb` is set, and otherwise there is no verb. */
  lemma AnsiVerbWithoutUnicode(info: InvokeCommandInfo)
    requires info.fMask & CMIC_MASK_UNICODE == 0 || info.lpVerbW == Null
    ensures ResolveVerb(info) == (if info.lpVerb != Null then Some(info.ansiVerb) else None)
  {
  }

  /** Without the Unicode flag the Unicode fields are never read. */
  lemma UnicodeFieldsIgnoredWithoutFlag(info: InvokeCommandInfo, lpVerbW: Ptr, unicodeVerb: string)
    requires info.fMask & CMIC_MASK_UNICODE == 0
    ensures ResolveVerb(info.(lpVerbW := lpVerbW, unicodeVerb := unicodeVerb)) == ResolveVerb(info)
  {
  }
}
