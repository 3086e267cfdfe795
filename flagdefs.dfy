/**
 * The global-flag bit constants, the destination bits and the shape of a
 * flag-table record (gflags.h).
 */
module FlagDefs {

  /** A Windows DWORD / ULONG: 32 unsigned bits. */
  type DWord = bv32

  /** A Windows WORD: 16 unsigned bits. */
  type Word = bv16

  // The FLG_* global-flag bits, in header order (bit k is 1 << k).
  const StopOnException: DWord := 0x1
  const ShowLdrSnaps: DWord := 0x2
  const DebugInitialCommand: DWord := 0x4
  const StopOnHungGui: DWord := 0x8
  const HeapEnableTailCheck: DWord := 0x10
  const HeapEnableFreeCheck: DWord := 0x20
  const HeapValidateParameters: DWord := 0x40
  const HeapValidateAll: DWord := 0x80
  const ApplicationVerifier: DWord := 0x100
  const MonitorSilentProcessExit: DWord := 0x200
  const PoolEnableTagging: DWord := 0x400
  const HeapEnableTagging: DWord := 0x800
  const UserStackTraceDb: DWord := 0x1000
  const KernelStackTraceDb: DWord := 0x2000
  const MaintainObjectTypelist: DWord := 0x4000
  const HeapEnableTagByDll: DWord := 0x8000
  const DisableStackExtension: DWord := 0x10000
  const EnableCsrDebug: DWord := 0x20000
  const EnableKDebugSymbolLoad: DWord := 0x40000
  const DisablePageKernelStacks: DWord := 0x80000
  const EnableSystemCritBreaks: DWord := 0x100000
  const HeapDisableCoalescing: DWord := 0x200000
  const EnableCloseExceptions: DWord := 0x400000
  const EnableExceptionLogging: DWord := 0x800000
  const EnableHandleTypeTagging: DWord := 0x1000000
  const HeapPageAllocs: DWord := 0x2000000
  const DebugInitialCommandEx: DWord := 0x4000000
  const DisableDbgPrint: DWord := 0x8000000
  const CritSecEventCreation: DWord := 0x10000000
  const StopOnUnhandledException: DWord := 0x20000000
  const EnableHandleExceptions: DWord := 0x40000000
  const DisableProtDlls: DWord := 0x80000000

  /** The 32 FLG_* constants in the order the header defines them. */
  const HeaderFlags: seq<DWord> := [
    StopOnException, ShowLdrSnaps, DebugInitialCommand, StopOnHungGui,
    HeapEnableTailCheck, HeapEnableFreeCheck, HeapValidateParameters, HeapValidateAll,
    ApplicationVerifier, MonitorSilentProcessExit, PoolEnableTagging, HeapEnableTagging,
    UserStackTraceDb, KernelStackTraceDb, MaintainObjectTypelist, HeapEnableTagByDll,
    DisableStackExtension, EnableCsrDebug, EnableKDebugSymbolLoad, DisablePageKernelStacks,
    EnableSystemCritBreaks, HeapDisableCoalescing, EnableCloseExceptions, EnableExceptionLogging,
    EnableHandleTypeTagging, HeapPageAllocs, DebugInitialCommandEx, DisableDbgPrint,
    CritSecEventCreation, StopOnUnhandledException, EnableHandleExceptions, DisableProtDlls
  ]

  // The DEST_* destination bits stored in a record's wDest.
  const DestRegistry: Word := 1
  const DestKernel: Word := 2
  const DestImage: Word := 4

  /** One row of the flag table: the FlagInfo record. */
  datatype FlagInfo = FlagInfo(flag: DWord, abbr: string, dest: Word, desc: string)

  /** x has exactly one bit set. */
  predicate IsSingleBit(x: DWord)
  {
    x != 0 && x & (x - 1) == 0
  }

  /** Two single bits overlap exactly when they are the same bit. */
  lemma SingleBitsMeet(a: DWord, b: DWord)
    requires IsSingleBit(a) && IsSingleBit(b)
    ensures a & b != 0 <==> a == b
  {
  }

  /** a and b have a bit in common: the C test `(a & b) != 0`. */
  predicate Overlap(a: DWord, b: DWord)
  {
    a & b != 0
  }

  /** A single bit meets v in either nothing or itself. */
  lemma SingleBitMeets(f: DWord, v: DWord)
    requires IsSingleBit(f)
    ensures (if Overlap(f, v) then f else 0) == f & v
  {
  }

  /** The bitwise OR of a sequence of masks. */
  function OrAll(xs: seq<DWord>): DWord
  {
    if xs == [] then 0 else OrAll(xs[..|xs| - 1]) | xs[|xs| - 1]
  }

  /** The k-th FLG_* constant is bit k, so each is a single set bit. */
  lemma HeaderFlagIsBit(k: nat)
    requires k < 32
    ensures |HeaderFlags| == 32
    ensures HeaderFlags[k] == 1 << k
    ensures IsSingleBit(HeaderFlags[k])
  {
    if k < 16 { LowHeaderFlagIsBit(k); } else { HighHeaderFlagIsBit(k); }
  }

  lemma LowHeaderFlagIsBit(k: nat)
    requires k < 16
    ensures |HeaderFlags| == 32
    ensures HeaderFlags[k] == 1 << k
    ensures IsSingleBit(HeaderFlags[k])
  {
    if k < 8 {
      if k < 4 {
        if k == 0 {} else if k == 1 {} else if k == 2 {} else {}
      } else {
        if k == 4 {} else if k == 5 {} else if k == 6 {} else {}
      }
    } else {
      if k < 12 {
        if k == 8 {} else if k == 9 {} else if k == 10 {} else {}
      } else {
        if k == 12 {} else if k == 13 {} else if k == 14 {} else {}
      }
    }
  }

  lemma HighHeaderFlagIsBit(k: nat)
    requires 16 <= k < 32
    ensures |HeaderFlags| == 32
    ensures HeaderFlags[k] == 1 << k
    ensures IsSingleBit(HeaderFlags[k])
  {
    if k < 24 {
      if k < 20 {
        if k == 16 {} else if k == 17 {} else if k == 18 {} else {}
      } else {
        if k == 20 {} else if k == 21 {} else if k == 22 {} else {}
      }
    } else {
      if k < 28 {
        if k == 24 {} else if k == 25 {} else if k == 26 {} else {}
      } else {
        if k == 28 {} else if k == 29 {} else if k == 30 {} else {}
      }
    }
  }

  /** The 32 FLG_* constants are pairwise distinct: a larger index is a larger bit. */
  lemma HeaderFlagsDistinct(i: nat, j: nat)
    requires i < j < 32
    ensures HeaderFlags[i] < HeaderFlags[j]
  {
    HeaderFlagIsBit(i);
    HeaderFlagIsBit(j);
    ShiftMonotonic(i, j);
  }

  lemma ShiftMonotonic(i: nat, j: nat)
    requires i < j < 32
    ensures (1 as DWord) << i < (1 as DWord) << j
  {
  }

  /** The first k FLG_* constants together cover exactly the k lowest bits. */
  lemma {:induction false} HeaderPrefixCoversLowBits(k: nat)
    requires k <= 32
    ensures k < 32 ==> OrAll(HeaderFlags[..k]) == ((1 as DWord) << k) - 1
    ensures k == 32 ==> OrAll(HeaderFlags[..k]) == 0xFFFF_FFFF
  {
    if k > 0 {
      HeaderPrefixCoversLowBits(k - 1);
      HeaderFlagIsBit(k - 1);
      assert HeaderFlags[..k][..k - 1] == HeaderFlags[..k - 1];
      if k < 32 {
        AddNextBit(k - 1);
      }
    }
  }

  lemma AddNextBit(k: nat)
    requires k < 31
    ensures (((1 as DWord) << k) - 1) | ((1 as DWord) << k) == ((1 as DWord) << (k + 1)) - 1
  {
  }

  /** Together the 32 FLG_* constants cover every bit of a DWORD. */
  lemma HeaderFlagsCoverAllBits()
    ensures OrAll(HeaderFlags) == 0xFFFF_FFFF
  {
    HeaderPrefixCoversLowBits(32);
    assert HeaderFlags[..32] == HeaderFlags;
  }

  /** The DEST_* values are the distinct single bits 1, 2 and 4. */
  lemma DestBitsAreDistinctSingleBits()
    ensures DestRegistry == 1 && DestKernel == 2 && DestImage == 4
    ensures DestRegistry & DestKernel == 0 && DestRegistry & DestImage == 0 && DestKernel & DestImage == 0
    ensures IsSingleBit(DestRegistry as DWord) && IsSingleBit(DestKernel as DWord) && IsSingleBit(DestImage as DWord)
  {
  }

  /**
   * Any combination of DEST_* bits fits in the WORD wDest field, and testing
   * one destination bit of it does not depend on the other two.
   */
  lemma DestCombinationIndependent(r: bool, k: bool, i: bool)
    ensures var w := (if r then DestRegistry else 0) | (if k then DestKernel else 0) | (if i then DestImage else 0);
      (w as int) <= 7
      && (w & DestRegistry != 0 <==> r)
      && (w & DestKernel != 0 <==> k)
      && (w & DestImage != 0 <==> i)
  {
  }
}
