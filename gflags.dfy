/**
 * The flag table, the per-destination valid masks derived from it, the
 * start-up step that computes them, and the decision branches of the
 * storage reads (gflags.cpp). The registry and NT system-information calls
 * themselves are inputs: each read takes what the OS call returned.
 */
module GFlags {
  import opened FlagDefs
  import opened CRuntime
  import opened Wrappers

  /** The table g_Flags, in declaration order (FLG_MONITOR_SILENT_PROCESS_EXIT is not listed). */
  const Flags: seq<FlagInfo> := [
    FlagInfo(StopOnException, "soe", DestRegistry | DestKernel | DestImage, "Stop on exception"),
    FlagInfo(ShowLdrSnaps, "sls", DestRegistry | DestKernel | DestImage, "Show loader snaps"),
    FlagInfo(DebugInitialCommand, "dic", DestRegistry, "Debug initial command"),
    FlagInfo(StopOnHungGui, "shg", DestKernel, "Stop on hung GUI"),
    FlagInfo(HeapEnableTailCheck, "htc", DestRegistry | DestKernel | DestImage, "Enable heap tail checking"),
    FlagInfo(HeapEnableFreeCheck, "hfc", DestRegistry | DestKernel | DestImage, "Enable heap free checking"),
    FlagInfo(HeapValidateParameters, "hpc", DestRegistry | DestKernel | DestImage, "Enable heap parameter checking"),
    FlagInfo(HeapValidateAll, "hvc", DestRegistry | DestKernel | DestImage, "Enable heap validation on call"),
    FlagInfo(ApplicationVerifier, "vrf", DestRegistry | DestKernel | DestImage, "Enable application verifier"),
    FlagInfo(PoolEnableTagging, "ptg", DestRegistry, "Enable pool tagging"),
    FlagInfo(HeapEnableTagging, "htg", DestRegistry | DestKernel | DestImage, "Enable heap tagging"),
    FlagInfo(UserStackTraceDb, "ust", DestRegistry | DestKernel | DestImage, "Create user mode stack trace database"),
    FlagInfo(KernelStackTraceDb, "kst", DestRegistry, "Create kernel mode stack trace database"),
    FlagInfo(MaintainObjectTypelist, "otl", DestRegistry, "Maintain a list of objects for each type"),
    FlagInfo(HeapEnableTagByDll, "htd", DestRegistry | DestKernel | DestImage, "Enable heap tagging by DLL"),
    FlagInfo(DisableStackExtension, "dse", DestImage, "Disable stack extension"),
    FlagInfo(EnableCsrDebug, "d32", DestRegistry, "Enable debugging of Win32 subsystem"),
    FlagInfo(EnableKDebugSymbolLoad, "ksl", DestRegistry | DestKernel, "Enable loading of kernel debugger symbols"),
    FlagInfo(DisablePageKernelStacks, "dps", DestRegistry, "Disable paging of kernel stacks"),
    FlagInfo(EnableSystemCritBreaks, "scb", DestRegistry | DestKernel | DestImage, "Enable system critical breaks"),
    FlagInfo(HeapDisableCoalescing, "dhc", DestRegistry | DestKernel | DestImage, "Disable heap coalesce on free"),
    FlagInfo(EnableCloseExceptions, "ece", DestRegistry | DestKernel, "Enable close exception"),
    FlagInfo(EnableExceptionLogging, "eel", DestRegistry | DestKernel, "Enable exception logging"),
    FlagInfo(EnableHandleTypeTagging, "eot", DestRegistry | DestKernel, "Enable object handle type tagging"),
    FlagInfo(HeapPageAllocs, "hpa", DestRegistry | DestKernel | DestImage, "Enable page heap"),
    FlagInfo(DebugInitialCommandEx, "dwl", DestRegistry, "Debug WinLogon"),
    FlagInfo(DisableDbgPrint, "ddp", DestRegistry | DestKernel, "Buffer DbgPrint Output"),
    FlagInfo(CritSecEventCreation, "cse", DestRegistry | DestKernel | DestImage, "Early critical section event creation"),
    FlagInfo(StopOnUnhandledException, "sue", DestRegistry | DestKernel | DestImage, "Stop on unhandled user-mode exception"),
    FlagInfo(EnableHandleExceptions, "bhd", DestRegistry | DestKernel, "Enable bad handles detection"),
    FlagInfo(DisableProtDlls, "dpd", DestRegistry | DestKernel | DestImage, "Disable protected DLL verification")
  ]

  // ---------------------------------------------------------------------
  // Masks over a flag table

  /** Every entry's flag is a single bit. */
  predicate SingleBitFlags(es: seq<FlagInfo>)
  {
    forall i :: 0 <= i < |es| ==> IsSingleBit(es[i].flag)
  }

  /** No bit is listed twice. */
  predicate DistinctFlags(es: seq<FlagInfo>)
  {
    forall i, j :: 0 <= i < j < |es| ==> es[i].flag != es[j].flag
  }

  /** The OR of every entry's flag: the bits the table knows about. */
  function TableBits(es: seq<FlagInfo>): DWord
  {
    if |es| == 0 then 0 else TableBits(es[..|es| - 1]) | es[|es| - 1].flag
  }

  /** What entry e adds to the mask of destination d: its flag if it lists d, else nothing. */
  function Contribution(e: FlagInfo, d: Word): (r: DWord)
    ensures r == e.flag || r == 0
  {
    if e.dest & d != 0 then e.flag else 0
  }

  /** The OR of the flags of exactly the entries whose destination set contains d. */
  function MaskOver(es: seq<FlagInfo>, d: Word): DWord
  {
    if |es| == 0 then 0 else MaskOver(es[..|es| - 1], d) | Contribution(es[|es| - 1], d)
  }

  /** The valid mask of destination d for the tool's own table. */
  function ValidMask(d: Word): DWord
  {
    MaskOver(FlagTable(), d)
  }

  /**
   * The table again, behind a call: ValidMask and ValidMaskHasEntry name it
   * this way so that the solver does not unfold the 31-entry literal into their
   * proof obligations (stated over Flags itself, ValidMaskHasEntry runs out of
   * resource). The ensures hands the identity to every caller.
   */
  function FlagTable(): (r: seq<FlagInfo>)
    ensures r == Flags
  {
    Flags
  }

  /** No entry of es shares a bit with b (stated entry by entry from the end). */
  predicate MissesAll(es: seq<FlagInfo>, b: DWord)
  {
    |es| == 0 || (MissesAll(es[..|es| - 1], b) && es[|es| - 1].flag & b == 0)
  }

  /** MissesAll is the entry-wise condition. */
  lemma {:induction false} MissesAllOf(es: seq<FlagInfo>, b: DWord)
    requires forall k :: 0 <= k < |es| ==> es[k].flag & b == 0
    ensures MissesAll(es, b)
  {
    if |es| > 0 {
      MissesAllOf(es[..|es| - 1], b);
    }
  }

  /** No other entry meets the bit of entry i. */
  predicate OwnsBit(es: seq<FlagInfo>, i: nat)
    requires i < |es|
  {
    forall k :: 0 <= k < |es| && k != i ==> es[k].flag & es[i].flag == 0
  }

  /** An entry that owns its bit is missed by the entries before it ... */
  lemma PrefixMisses(es: seq<FlagInfo>, i: nat)
    requires i < |es| && OwnsBit(es, i)
    ensures MissesAll(es[..i], es[i].flag)
  {
    var part, b := es[..i], es[i].flag;
    forall k | 0 <= k < |part| ensures part[k].flag & b == 0 {
      assert part[k] == es[k] && k != i;
    }
    MissesAllOf(part, b);
  }

  /** ... and by the entries after it. */
  lemma SuffixMisses(es: seq<FlagInfo>, i: nat)
    requires i < |es| && OwnsBit(es, i)
    ensures MissesAll(es[i + 1..], es[i].flag)
  {
    var part, b := es[i + 1..], es[i].flag;
    forall k | 0 <= k < |part| ensures part[k].flag & b == 0 {
      assert part[k] == es[i + 1 + k] && i + 1 + k != i;
    }
    MissesAllOf(part, b);
  }

  lemma MaskOverStep(es: seq<FlagInfo>, n: nat, d: Word)
    requires n < |es|
    ensures MaskOver(es[..n + 1], d) == MaskOver(es[..n], d) | Contribution(es[n], d)
  {
    assert es[..n + 1][..n] == es[..n];
  }

  /** The mask of a concatenation is the OR of the masks of the parts. */
  lemma {:induction false} MaskOverAppend(p: seq<FlagInfo>, q: seq<FlagInfo>, d: Word)
    ensures MaskOver(p + q, d) == MaskOver(p, d) | MaskOver(q, d)
  {
    if |q| == 0 {
      assert p + q == p;
    } else {
      var q' := q[..|q| - 1];
      MaskOverAppend(p, q', d);
      assert (p + q)[..|p + q| - 1] == p + q';
      assert (p + q)[|p + q| - 1] == q[|q| - 1];
    }
  }

  /** A bit that no entry shares is in no destination mask. */
  lemma {:induction false} MaskOverAvoids(es: seq<FlagInfo>, d: Word, b: DWord)
    requires MissesAll(es, b)
    ensures b & MaskOver(es, d) == 0
  {
    if |es| > 0 {
      MaskOverAvoids(es[..|es| - 1], d, b);
    }
  }

  /**
   * When no other entry shares entry i's bit, that bit is in the mask of d
   * exactly when entry i lists d.
   */
  lemma MaskOverExact(es: seq<FlagInfo>, d: Word, i: nat)
    requires i < |es| && es[i].flag != 0
    requires MissesAll(es[..i], es[i].flag) && MissesAll(es[i + 1..], es[i].flag)
    ensures es[i].flag & MaskOver(es, d) != 0 <==> es[i].dest & d != 0
  {
    MaskOverSplit(es, i, d);
    MaskOverAvoids(es[..i], d, es[i].flag);
    MaskOverAvoids(es[i + 1..], d, es[i].flag);
    ExactFromSplit(es, d, i);
  }

  lemma ExactFromSplit(es: seq<FlagInfo>, d: Word, i: nat)
    requires i < |es| && es[i].flag != 0
    requires MaskOver(es, d) == (MaskOver(es[..i], d) | Contribution(es[i], d)) | MaskOver(es[i + 1..], d)
    requires es[i].flag & MaskOver(es[..i], d) == 0 && es[i].flag & MaskOver(es[i + 1..], d) == 0
    ensures es[i].flag & MaskOver(es, d) != 0 <==> es[i].dest & d != 0
  {
    if es[i].dest & d != 0 {
      ListedBitInMask(es, d, i);
    } else {
      UnlistedBitNotInMask(es, d, i);
    }
  }

  lemma ListedBitInMask(es: seq<FlagInfo>, d: Word, i: nat)
    requires i < |es| && es[i].dest & d != 0
    requires MaskOver(es, d) == (MaskOver(es[..i], d) | Contribution(es[i], d)) | MaskOver(es[i + 1..], d)
    ensures es[i].flag & MaskOver(es, d) == es[i].flag
  {
  }

  lemma UnlistedBitNotInMask(es: seq<FlagInfo>, d: Word, i: nat)
    requires i < |es| && es[i].dest & d == 0
    requires MaskOver(es, d) == (MaskOver(es[..i], d) | Contribution(es[i], d)) | MaskOver(es[i + 1..], d)
    requires es[i].flag & MaskOver(es[..i], d) == 0 && es[i].flag & MaskOver(es[i + 1..], d) == 0
    ensures es[i].flag & MaskOver(es, d) == 0
  {
  }

  /** The mask of a table, split around entry i. */
  lemma MaskOverSplit(es: seq<FlagInfo>, i: nat, d: Word)
    requires i < |es|
    ensures MaskOver(es, d) == (MaskOver(es[..i], d) | Contribution(es[i], d)) | MaskOver(es[i + 1..], d)
  {
    assert es == es[..i + 1] + es[i + 1..];
    MaskOverAppend(es[..i + 1], es[i + 1..], d);
    MaskOverStep(es, i, d);
  }

  /** Every entry's bit is among the table's bits. */
  lemma {:induction false} TableBitsHas(es: seq<FlagInfo>, i: nat)
    requires i < |es|
    ensures es[i].flag & TableBits(es) == es[i].flag
  {
    if i < |es| - 1 {
      TableBitsHas(es[..|es| - 1], i);
      assert es[..|es| - 1][i] == es[i];
    }
  }

  /** A bit that no entry shares is not among the table's bits. */
  lemma {:induction false} TableBitsAvoids(es: seq<FlagInfo>, b: DWord)
    requires MissesAll(es, b)
    ensures b & TableBits(es) == 0
  {
    if |es| > 0 {
      TableBitsAvoids(es[..|es| - 1], b);
    }
  }

  /** A destination mask never has a bit that the table does not list. */
  lemma {:induction false} MaskOverWithinTable(es: seq<FlagInfo>, d: Word)
    ensures MaskOver(es, d) & !TableBits(es) == 0
  {
    if |es| > 0 {
      MaskOverWithinTable(es[..|es| - 1], d);
    }
  }

  // ---------------------------------------------------------------------
  // Properties of the tool's own table

  /**
   * Entry i carries the i-th FLG_* bit of the header, skipping
   * FLG_MONITOR_SILENT_PROCESS_EXIT (header position 9).
   */
  lemma FlagEntryBit(i: nat)
    requires i < |Flags|
    ensures |Flags| == 31
    ensures Flags[i].flag == HeaderFlags[if i < 9 then i else i + 1]
  {
    if i < 8 { FlagEntryBitA(i); }
    else if i < 16 { FlagEntryBitB(i); }
    else if i < 24 { FlagEntryBitC(i); }
    else { FlagEntryBitD(i); }
  }

  lemma FlagEntryBitA(i: nat)
    requires i < 8
    ensures |Flags| == 31
    ensures Flags[i].flag == HeaderFlags[i]
  {
    if i < 4 { if i == 0 {} else if i == 1 {} else if i == 2 {} else {} }
    else { if i == 4 {} else if i == 5 {} else if i == 6 {} else {} }
  }

  lemma FlagEntryBitB(i: nat)
    requires 8 <= i < 16
    ensures |Flags| == 31
    ensures Flags[i].flag == HeaderFlags[if i < 9 then i else i + 1]
  {
    if i < 12 { if i == 8 {} else if i == 9 {} else if i == 10 {} else {} }
    else { if i == 12 {} else if i == 13 {} else if i == 14 {} else {} }
  }

  lemma FlagEntryBitC(i: nat)
    requires 16 <= i < 24
    ensures |Flags| == 31
    ensures Flags[i].flag == HeaderFlags[i + 1]
  {
    if i < 20 { if i == 16 {} else if i == 17 {} else if i == 18 {} else {} }
    else { if i == 20 {} else if i == 21 {} else if i == 22 {} else {} }
  }

  lemma FlagEntryBitD(i: nat)
    requires 24 <= i < 31
    ensures |Flags| == 31
    ensures Flags[i].flag == HeaderFlags[i + 1]
  {
    if i < 28 { if i == 24 {} else if i == 25 {} else if i == 26 {} else {} }
    else { if i == 28 {} else if i == 29 {} else {} }
  }

  /** The header position of entry i's bit. */
  function HeaderIndex(i: nat): (h: nat)
    ensures i < 9 ==> h == i
    ensures i >= 9 ==> h == i + 1
  {
    if i < 9 then i else i + 1
  }

  /** Two different entries carry different single bits, the later one the larger. */
  lemma FlagPair(i: nat, j: nat)
    requires i < j < |Flags|
    ensures IsSingleBit(Flags[i].flag) && IsSingleBit(Flags[j].flag)
    ensures Flags[i].flag < Flags[j].flag
    ensures Flags[i].flag & Flags[j].flag == 0
  {
    FlagEntryBit(i);
    FlagEntryBit(j);
    HeaderFlagIsBit(HeaderIndex(i));
    HeaderFlagIsBit(HeaderIndex(j));
    HeaderFlagsDistinct(HeaderIndex(i), HeaderIndex(j));
    SingleBitsMeet(Flags[i].flag, Flags[j].flag);
  }

  /** The table lists 31 distinct single bits, in increasing order. */
  lemma FlagsWellFormed()
    ensures |Flags| == 31 && SingleBitFlags(Flags) && DistinctFlags(Flags)
    ensures forall i, j :: 0 <= i < j < |Flags| ==> Flags[i].flag < Flags[j].flag
  {
    forall i | 0 <= i < |Flags| ensures IsSingleBit(Flags[i].flag) {
      FlagEntryBit(i);
      HeaderFlagIsBit(HeaderIndex(i));
    }
    forall i, j | 0 <= i < j < |Flags| ensures Flags[i].flag < Flags[j].flag {
      FlagPair(i, j);
    }
  }

  /** No other entry shares a bit with entry i, on either side of it. */
  lemma FlagOwnsBit(i: nat)
    requires i < |Flags|
    ensures Flags[i].flag != 0
    ensures MissesAll(Flags[..i], Flags[i].flag) && MissesAll(Flags[i + 1..], Flags[i].flag)
  {
    FlagEntryBit(i);
    HeaderFlagIsBit(HeaderIndex(i));
    forall k | 0 <= k < |Flags| && k != i ensures Flags[k].flag & Flags[i].flag == 0 {
      if k < i { FlagPair(k, i); } else { FlagPair(i, k); }
    }
    assert OwnsBit(Flags, i);
    PrefixMisses(Flags, i);
    SuffixMisses(Flags, i);
  }

  /** FLG_MONITOR_SILENT_PROCESS_EXIT (0x200) is the one FLG_* bit without an entry. */
  lemma SilentProcessExitAbsent()
    ensures forall i :: 0 <= i < |Flags| ==> Flags[i].flag & MonitorSilentProcessExit == 0
    ensures MissesAll(Flags, MonitorSilentProcessExit)
  {
    forall i | 0 <= i < |Flags| ensures Flags[i].flag & MonitorSilentProcessExit == 0 {
      FlagEntryBit(i);
      var h := HeaderIndex(i);
      HeaderFlagIsBit(h);
      HeaderFlagIsBit(9);
      if h < 9 {
        HeaderFlagsDistinct(h, 9);
      } else {
        HeaderFlagsDistinct(9, h);
      }
      SingleBitsMeet(Flags[i].flag, MonitorSilentProcessExit);
    }
    MissesAllOf(Flags, MonitorSilentProcessExit);
  }

  /** 0x200 is not among the table's bits (each entry's bit is, by TableBitsHas). */
  lemma TableBitsOfFlags()
    ensures MonitorSilentProcessExit & TableBits(Flags) == 0
  {
    SilentProcessExitAbsent();
    TableBitsAvoids(Flags, MonitorSilentProcessExit);
  }

  /** The abbreviations, in table order. */
  const AbbreviationColumn: seq<string> :=
    ["soe", "sls", "dic", "shg", "htc", "hfc", "hpc", "hvc", "vrf", "ptg", "htg",
     "ust", "kst", "otl", "htd", "dse", "d32", "ksl", "dps", "scb", "dhc", "ece",
     "eel", "eot", "hpa", "dwl", "ddp", "cse", "sue", "bhd", "dpd"]

  /** AbbreviationColumn is the abbreviation column of the table, entry by entry. */
  lemma AbbreviationsAre()
    ensures |AbbreviationColumn| == |Flags|
    ensures forall i :: 0 <= i < |Flags| ==> Flags[i].abbr == AbbreviationColumn[i]
  {
  }

  /** The column is free of repeats, shown a block of rows at a time. */
  lemma ColumnDistinctFirst()
    ensures forall i, j :: 0 <= i < j < |AbbreviationColumn| && i < 5 ==> AbbreviationColumn[i] != AbbreviationColumn[j]
  {
  }

  lemma ColumnDistinctSecond()
    ensures forall i, j :: 5 <= i < j < |AbbreviationColumn| && i < 10 ==> AbbreviationColumn[i] != AbbreviationColumn[j]
  {
  }

  lemma ColumnDistinctMiddle()
    ensures forall i, j :: 10 <= i < j < |AbbreviationColumn| && i < 20 ==> AbbreviationColumn[i] != AbbreviationColumn[j]
  {
  }

  lemma ColumnDistinctHigh()
    ensures forall i, j :: 20 <= i < j < |AbbreviationColumn| ==> AbbreviationColumn[i] != AbbreviationColumn[j]
  {
  }

  lemma ColumnFolded()
    ensures forall i :: 0 <= i < |AbbreviationColumn| ==> IsFolded(AbbreviationColumn[i])
  {
  }

  /** Every abbreviation is lower case, so folding leaves it unchanged. */
  lemma AbbreviationsFolded()
    ensures forall i :: 0 <= i < |Flags| ==> IsFolded(Flags[i].abbr)
  {
    AbbreviationsAre();
    ColumnFolded();
    assert forall i :: 0 <= i < |Flags| ==> Flags[i].abbr == AbbreviationColumn[i];
  }

  /** The 31 abbreviations are pairwise different strings. */
  lemma AbbreviationsDistinct()
    ensures forall i, j :: 0 <= i < j < |Flags| ==> Flags[i].abbr != Flags[j].abbr
  {
    AbbreviationsAre();
    ColumnDistinctFirst();
    ColumnDistinctSecond();
    ColumnDistinctMiddle();
    ColumnDistinctHigh();
    assert forall i :: 0 <= i < |Flags| ==> Flags[i].abbr == AbbreviationColumn[i];
  }

  /** No two entries share an abbreviation, even ignoring ASCII case. */
  lemma AbbreviationsDistinctIgnoringCase(i: nat, j: nat)
    requires i < |Flags| && j < |Flags| && i != j
    ensures !EqualsIgnoreCase(Flags[i].abbr, Flags[j].abbr)
  {
    AbbreviationsFolded();
    AbbreviationsDistinct();
    EqualsIgnoreCaseOfFolded(Flags[i].abbr, Flags[j].abbr);
  }

  /**
   * So a case-insensitive lookup of any token matches at most one entry:
   * two entries equal to the same token ignoring case are the same entry.
   */
  lemma LookupMatchesAtMostOne(token: string, i: nat, j: nat)
    requires i < |Flags| && j < |Flags|
    requires EqualsIgnoreCase(token, Flags[i].abbr) && EqualsIgnoreCase(token, Flags[j].abbr)
    ensures i == j
  {
    EqualsIgnoreCaseIffFoldsEqual(token, Flags[i].abbr);
    EqualsIgnoreCaseIffFoldsEqual(token, Flags[j].abbr);
    EqualsIgnoreCaseIffFoldsEqual(Flags[i].abbr, Flags[j].abbr);
    if i != j {
      AbbreviationsDistinctIgnoringCase(i, j);
    }
  }

  /**
   * What the rest of the tool relies on in a flag table: each flag is a
   * single bit that no other entry shares, and no two abbreviations are
   * equal ignoring case.
   */
  predicate WellFormedTable(t: seq<FlagInfo>)
  {
    (forall i :: 0 <= i < |t| ==> IsSingleBit(t[i].flag))
    && (forall i, j :: 0 <= i < |t| && 0 <= j < |t| && i != j ==> t[i].flag & t[j].flag == 0)
    && (forall i, j :: 0 <= i < |t| && 0 <= j < |t| && i != j ==> !EqualsIgnoreCase(t[i].abbr, t[j].abbr))
  }

  /** The tool's table is well formed. */
  lemma FlagsWellFormedTable()
    ensures WellFormedTable(Flags)
  {
    FlagsWellFormed();
    forall i, j | 0 <= i < |Flags| && 0 <= j < |Flags| && i != j
      ensures Flags[i].flag & Flags[j].flag == 0 && !EqualsIgnoreCase(Flags[i].abbr, Flags[j].abbr)
    {
      if i < j { FlagPair(i, j); } else { FlagPair(j, i); }
      AbbreviationsDistinctIgnoringCase(i, j);
    }
  }

  /** In a well-formed table no other entry shares entry i's bit, before or after it. */
  lemma WellFormedOwnsBit(t: seq<FlagInfo>, i: nat)
    requires WellFormedTable(t) && i < |t|
    ensures t[i].flag != 0
    ensures MissesAll(t[..i], t[i].flag) && MissesAll(t[i + 1..], t[i].flag)
  {
    assert OwnsBit(t, i);
    PrefixMisses(t, i);
    SuffixMisses(t, i);
  }

  /** An entry's bit is in the mask of destination d exactly when the entry lists d. */
  lemma ValidMaskHasEntry(i: nat, d: Word)
    requires i < |Flags|
    ensures FlagTable()[i].flag & ValidMask(d) != 0 <==> FlagTable()[i].dest & d != 0
  {
    TableEntryInMask(FlagTable(), i, d);
  }

  lemma TableEntryInMask(es: seq<FlagInfo>, i: nat, d: Word)
    requires es == Flags
    requires i < |es|
    ensures es[i].flag & MaskOver(es, d) != 0 <==> es[i].dest & d != 0
  {
    FlagOwnsBit(i);
    MaskOverExact(es, d, i);
  }

  /** FLG_MONITOR_SILENT_PROCESS_EXIT (0x200) is in no mask. */
  lemma SilentProcessExitInNoMask(d: Word)
    ensures MonitorSilentProcessExit & ValidMask(d) == 0
  {
    SilentProcessExitAbsent();
    MaskOverAvoids(Flags, d, MonitorSilentProcessExit);
  }

  /** shg (0x8) is a kernel-only flag. */
  lemma StopOnHungGuiIsKernelOnly()
    ensures StopOnHungGui & ValidMask(DestKernel) != 0
    ensures StopOnHungGui & ValidMask(DestRegistry) == 0 && StopOnHungGui & ValidMask(DestImage) == 0
  {
    assert Flags[3].flag == StopOnHungGui && Flags[3].dest == DestKernel;
    ValidMaskHasEntry(3, DestKernel);
    ValidMaskHasEntry(3, DestRegistry);
    ValidMaskHasEntry(3, DestImage);
  }

  /** dse (0x10000) is an image-only flag. */
  lemma DisableStackExtensionIsImageOnly()
    ensures DisableStackExtension & ValidMask(DestImage) != 0
    ensures DisableStackExtension & ValidMask(DestRegistry) == 0 && DisableStackExtension & ValidMask(DestKernel) == 0
  {
    assert Flags[15].flag == DisableStackExtension && Flags[15].dest == DestImage;
    ValidMaskHasEntry(15, DestKernel);
    ValidMaskHasEntry(15, DestRegistry);
    ValidMaskHasEntry(15, DestImage);
  }

  /** dic (0x4) is a registry-only flag. */
  lemma DebugInitialCommandIsRegistryOnly()
    ensures DebugInitialCommand & ValidMask(DestRegistry) != 0
    ensures DebugInitialCommand & ValidMask(DestKernel) == 0 && DebugInitialCommand & ValidMask(DestImage) == 0
  {
    assert Flags[2].flag == DebugInitialCommand && Flags[2].dest == DestRegistry;
    ValidMaskHasEntry(2, DestKernel);
    ValidMaskHasEntry(2, DestRegistry);
    ValidMaskHasEntry(2, DestImage);
  }

  // ---------------------------------------------------------------------
  // Start-up: UpdateValidFlags

  /** The OS-version test for pool tagging: Windows 5.2 (Server 2003) or later. */
  predicate PoolTaggingSupported(major: DWord, minor: DWord)
  {
    major > 5 || (major == 5 && minor >= 2)
  }

  /** A snapshot of the three valid masks, as MaskFlags reads them. */
  datatype ValidMasks = ValidMasks(registry: DWord, kernel: DWord, image: DWord)

  /** The process-wide masks g_Valid*Flags and g_PoolTaggingEnabled. */
  class ValidFlags {
    var registry: DWord
    var kernel: DWord
    var image: DWord
    var poolTaggingEnabled: DWord

    /** All four globals start at 0. */
    constructor ()
      ensures registry == 0 && kernel == 0 && image == 0 && poolTaggingEnabled == 0
    {
      registry, kernel, image, poolTaggingEnabled := 0, 0, 0, 0;
    }

    function Masks(): ValidMasks
      reads this
    {
      ValidMasks(registry, kernel, image)
    }

    /**
     * UpdateValidFlags: reset the three masks, OR every entry's bit into the
     * masks of the destinations it lists, then, only if the ntdll entry points
     * resolved, set pool tagging when the OS version (major, minor) allows it.
     * The masks depend on neither input nor on the old state, so a second call
     * leaves them as the first one did.
     */
    method UpdateValidFlags(functionsResolved: bool, major: DWord, minor: DWord)
      modifies this
      ensures registry == ValidMask(DestRegistry)
      ensures kernel == ValidMask(DestKernel)
      ensures image == ValidMask(DestImage)
      ensures poolTaggingEnabled ==
        if functionsResolved && PoolTaggingSupported(major, minor) then 1 else old(poolTaggingEnabled)
    {
      registry := 0;
      kernel := 0;
      image := 0;
      var n := 0;
      while n < |Flags|
        invariant 0 <= n <= |Flags|
        invariant registry == MaskOver(Flags[..n], DestRegistry)
        invariant kernel == MaskOver(Flags[..n], DestKernel)
        invariant image == MaskOver(Flags[..n], DestImage)
        invariant poolTaggingEnabled == old(poolTaggingEnabled)
      {
        MaskOverStep(Flags, n, DestRegistry);
        MaskOverStep(Flags, n, DestKernel);
        MaskOverStep(Flags, n, DestImage);
        var entry := Flags[n];
        registry := registry | Contribution(entry, DestRegistry);
        kernel := kernel | Contribution(entry, DestKernel);
        image := image | Contribution(entry, DestImage);
        n := n + 1;
      }
      assert Flags[..n] == Flags;
      if !functionsResolved {
        return;
      }
      if PoolTaggingSupported(major, minor) {
        poolTaggingEnabled := 1;
      }
    }
  }

  // ---------------------------------------------------------------------
  // Storage reads: the decision logic around the OS calls

  /** Win32 error code ERROR_FILE_NOT_FOUND. */
  const ErrorFileNotFound: int := 2

  /** What RegQueryValueExW did: failed, or succeeded with the value's data and whether its type was REG_DWORD. */
  datatype Query = QueryFailed | QueryData(isDword: bool, data: DWord)

  /** What RegOpenKeyExW did: opened the key (and the query that followed), or failed with a status. */
  datatype KeyOpen = KeyOpened(query: Query) | KeyOpenFailed(status: int)

  /** What NtQuerySystemInformation(SystemFlagsInformation) did. */
  datatype KernelQuery = KernelQuery(succeeded: bool, length: nat, flags: DWord)

  /**
   * The outcome of a read: the BOOL it returns, and what it wrote through its
   * out-pointer (a failed read may still have written the queried data).
   */
  datatype ReadResult = Success(value: DWord) | Failure(written: Option<DWord>)

  /** The out-pointer's content after a read, given its content before. */
  function StoreThrough(before: DWord, r: ReadResult): DWord
  {
    match r
    case Success(v) => v
    case Failure(Some(v)) => v
    case Failure(None) => before
  }

  /** The query step shared by both registry reads: success only for REG_DWORD data. */
  function QueryResult(q: Query): ReadResult
  {
    match q
    case QueryFailed => Failure(None)
    case QueryData(isDword, data) => if isDword then Success(data) else Failure(Some(data))
  }

  /** ReadGlobalFlagsFromRegistry, given whether the debug privilege is on and how the key open went. */
  function ReadGlobalFlagsFromRegistry(debugEnabled: bool, key: KeyOpen): ReadResult
  {
    if debugEnabled && key.KeyOpened? then QueryResult(key.query) else Failure(None)
  }

  /**
   * ReadImageGlobalFlagsFromRegistry: an empty name reads as 0 without any
   * registry access; a missing Image File Execution Options key also reads as 0.
   */
  function ReadImageGlobalFlagsFromRegistry(imageName: string, debugEnabled: bool, key: KeyOpen): ReadResult
  {
    if imageName == [] then Success(0)
    else if !debugEnabled then Failure(None)
    else match key
      case KeyOpened(q) => QueryResult(q)
      case KeyOpenFailed(status) => if status == ErrorFileNotFound then Success(0) else Failure(None)
  }

  /** ReadGlobalFlagsFromKernel: the flags are written only when the query succeeded with a full-size answer. */
  function ReadGlobalFlagsFromKernel(functionsResolved: bool, q: KernelQuery): ReadResult
  {
    if functionsResolved && q.succeeded && q.length == 4 then Success(q.flags) else Failure(None)
  }

  /** An empty image name reads as (0, TRUE) whatever the registry would say. */
  lemma EmptyImageNameReadsZero(debugEnabled: bool, key: KeyOpen)
    ensures ReadImageGlobalFlagsFromRegistry([], debugEnabled, key) == Success(0)
    ensures StoreThrough(0xFFFF_FFFF, ReadImageGlobalFlagsFromRegistry([], debugEnabled, key)) == 0
  {
  }

  /** A missing image key reads as (0, TRUE). */
  lemma MissingImageKeyReadsZero(imageName: string)
    ensures ReadImageGlobalFlagsFromRegistry(imageName, true, KeyOpenFailed(ErrorFileNotFound)) == Success(0)
  {
  }

  /** A registry read succeeds exactly when the privilege is on, the key opens and the value is a REG_DWORD. */
  lemma RegistryReadSucceedsIff(debugEnabled: bool, key: KeyOpen, v: DWord)
    ensures ReadGlobalFlagsFromRegistry(debugEnabled, key) == Success(v)
        <==> debugEnabled && key == KeyOpened(QueryData(true, v))
  {
  }

  /** A kernel read succeeds exactly when ntdll was resolved and the query answered with a full SYSTEM_FLAGS_INFORMATION. */
  lemma KernelReadSucceedsIff(functionsResolved: bool, q: KernelQuery, v: DWord)
    ensures ReadGlobalFlagsFromKernel(functionsResolved, q) == Success(v)
        <==> functionsResolved && q.succeeded && q.length == 4 && q.flags == v
  {
  }

  /** For a non-empty name, the image read is the registry read except that a missing key reads as 0. */
  lemma ImageReadMatchesRegistryRead(imageName: string, debugEnabled: bool, key: KeyOpen)
    requires imageName != []
    ensures ReadImageGlobalFlagsFromRegistry(imageName, debugEnabled, key) ==
      if debugEnabled && key == KeyOpenFailed(ErrorFileNotFound) then Success(0)
      else ReadGlobalFlagsFromRegistry(debugEnabled, key)
  {
  }
}
