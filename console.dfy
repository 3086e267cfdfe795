/**
 * The command-line front end (console.cpp): option recognition, masking a
 * value for a destination, the flag-token grammar, the listing of set flags
 * and the left-to-right interpretation of argv. Reading the chosen
 * destination is one of the storage reads of GFlags, fed with what the OS
 * call returned (an Env); printing and exit() become an Outcome.
 */
module Console {
  import opened FlagDefs
  import opened CRuntime
  import opened GFlags
  import opened Wrappers

  // ---------------------------------------------------------------------
  // IsCommandlineOption

  /**
   * IsCommandlineOption: '/' or '-' followed by exactly `option`, compared
   * case-sensitively (wcscmp). An empty argument starts with the terminating
   * NUL and is no option.
   */
  function IsCommandlineOption(arg: string, option: string): (r: bool)
    ensures r <==> arg == "/" + option || arg == "-" + option
  {
    |arg| > 0 && (arg[0] == '/' || arg[0] == '-') && arg[1..] == option
  }

  /** One of the three destination options -i, -r, -k. */
  predicate IsDestOption(arg: string)
  {
    IsCommandlineOption(arg, "i") || IsCommandlineOption(arg, "r") || IsCommandlineOption(arg, "k")
  }

  /** One of the license options -lic, -license. */
  predicate IsLicenseOption(arg: string)
  {
    IsCommandlineOption(arg, "lic") || IsCommandlineOption(arg, "license")
  }

  /** Options are exact: "-I", "-kk" and "k" are not the kernel option. */
  lemma OptionsAreExact()
    ensures IsCommandlineOption("/k", "k") && IsCommandlineOption("-k", "k")
    ensures !IsCommandlineOption("-K", "k") && !IsCommandlineOption("-kk", "k") && !IsCommandlineOption("k", "k")
    ensures !IsCommandlineOption("", "k")
  {
    assert "-K"[1..] == "K";
    assert "-kk"[1..] == "kk";
  }

  // ---------------------------------------------------------------------
  // MaskFlags

  /** The two halves MaskFlags writes through its out-pointers. */
  datatype Split = Split(apply: DWord, ignored: DWord)

  /**
   * The valid mask MaskFlags uses for a destination word: the image mask when
   * DEST_IMAGE is set, else the kernel mask when DEST_KERNEL is set, else
   * (also for 0) the registry mask.
   */
  function MaskFor(masks: ValidMasks, dest: DWord): DWord
  {
    if dest & (DestImage as DWord) != 0 then masks.image
    else if dest & (DestKernel as DWord) != 0 then masks.kernel
    else masks.registry
  }

  /** MaskFlags: split a value into the bits valid for the destination and the rest. */
  function MaskFlags(masks: ValidMasks, dest: DWord, active: DWord): Split
  {
    var mask := MaskFor(masks, dest);
    Split(active & mask, active & !mask)
  }

  /** Image beats kernel beats registry, and a destination word of 0 uses the registry mask. */
  lemma MaskForPrecedence(masks: ValidMasks)
    ensures MaskFor(masks, DestImage as DWord) == masks.image
    ensures MaskFor(masks, (DestImage | DestKernel | DestRegistry) as DWord) == masks.image
    ensures MaskFor(masks, DestKernel as DWord) == masks.kernel
    ensures MaskFor(masks, (DestKernel | DestRegistry) as DWord) == masks.kernel
    ensures MaskFor(masks, DestRegistry as DWord) == masks.registry
    ensures MaskFor(masks, 0) == masks.registry
  {
  }

  /**
   * The two halves partition the value: together they are all of it, they
   * share no bit, the applied half lies inside the destination's mask and
   * the ignored half outside it.
   */
  lemma MaskFlagsPartitions(masks: ValidMasks, dest: DWord, active: DWord)
    ensures var r := MaskFlags(masks, dest, active);
      r.apply | r.ignored == active && r.apply & r.ignored == 0
      && r.apply & !MaskFor(masks, dest) == 0 && r.ignored & MaskFor(masks, dest) == 0
  {
    MaskSplit(active, MaskFor(masks, dest));
  }

  lemma MaskSplit(a: DWord, m: DWord)
    ensures (a & m) | (a & !m) == a && (a & m) & (a & !m) == 0
    ensures (a & m) & !m == 0 && (a & !m) & m == 0
  {
  }

  /** Masking what was applied again applies all of it and ignores nothing. */
  lemma MaskFlagsIdempotent(masks: ValidMasks, dest: DWord, active: DWord)
    ensures var once := MaskFlags(masks, dest, active);
      MaskFlags(masks, dest, once.apply).apply == once.apply
      && MaskFlags(masks, dest, once.apply).ignored == 0
  {
    MaskTwice(active, MaskFor(masks, dest));
  }

  lemma MaskTwice(a: DWord, m: DWord)
    ensures (a & m) & m == a & m && (a & m) & !m == 0
  {
  }

  /** The masks UpdateValidFlags computes. */
  function ToolMasks(): ValidMasks
  {
    ValidMasks(ValidMask(DestRegistry), ValidMask(DestKernel), ValidMask(DestImage))
  }

  /** For the image destination 0x9 (soe | shg) keeps soe and drops the kernel-only shg. */
  lemma MaskFlagsImageExample()
    ensures MaskFlags(ToolMasks(), DestImage as DWord, 0x9).apply == 0x1
    ensures MaskFlags(ToolMasks(), DestImage as DWord, 0x9).ignored == 0x8
  {
    ValidMaskHasEntry(0, DestImage);
    ValidMaskHasEntry(3, DestImage);
    MaskBitsExample(ValidMask(DestImage));
  }

  lemma MaskBitsExample(m: DWord)
    requires 0x1 & m != 0 && 0x8 & m == 0
    ensures 0x9 & m == 0x1 && 0x9 & !m == 0x8
  {
  }


  // ---------------------------------------------------------------------
  // ParseFlags

  /**
   * The first entry of `table` at or after `from` whose abbreviation equals
   * `name` ignoring case (the loop of ParseFlags), or None when there is none.
   */
  function FindAbbreviation(table: seq<FlagInfo>, name: string, from: nat): (r: Option<nat>)
    requires from <= |table|
    ensures r.Some? ==> from <= r.value < |table| && EqualsIgnoreCase(name, table[r.value].abbr)
    ensures r.None? ==> forall k :: from <= k < |table| ==> !EqualsIgnoreCase(name, table[k].abbr)
    decreases |table| - from
  {
    if from == |table| then None
    else if EqualsIgnoreCase(name, table[from].abbr) then Some(from)
    else FindAbbreviation(table, name, from + 1)
  }

  /** The case-insensitive abbreviation lookup over the whole table. */
  function Lookup(table: seq<FlagInfo>, name: string): Option<nat>
  {
    FindAbbreviation(table, name, 0)
  }

  /** In a well-formed table the lookup finds entry i exactly when name equals i's abbreviation ignoring case. */
  lemma LookupFinds(table: seq<FlagInfo>, name: string, i: nat)
    requires WellFormedTable(table) && i < |table|
    ensures Lookup(table, name) == Some(i) <==> EqualsIgnoreCase(name, table[i].abbr)
  {
    if EqualsIgnoreCase(name, table[i].abbr) {
      var r := Lookup(table, name);
      assert r.Some?;
      if r.value != i {
        EqualsIgnoreCaseIffFoldsEqual(name, table[i].abbr);
        EqualsIgnoreCaseIffFoldsEqual(name, table[r.value].abbr);
        EqualsIgnoreCaseIffFoldsEqual(table[r.value].abbr, table[i].abbr);
        assert false;
      }
    }
  }

  /** In the tool's table, the lookup finds entry i for any name equal to i's abbreviation ignoring case. */
  lemma LookupFlagsAt(name: string, i: nat)
    requires i < |Flags| && EqualsIgnoreCase(name, Flags[i].abbr)
    ensures Lookup(Flags, name) == Some(i)
  {
    FlagsWellFormedTable();
    LookupFinds(Flags, name, i);
  }

  /** A name the tool's lookup finds folds to one of the table's abbreviations. */
  lemma LookupFoundIsAbbreviation(name: string)
    requires Lookup(Flags, name).Some?
    ensures Fold(name) in AbbreviationColumn
  {
    var i := Lookup(Flags, name).value;
    AbbreviationsAre();
    AbbreviationsFolded();
    EqualsIgnoreCaseIffFoldsEqual(name, Flags[i].abbr);
    FoldOfFolded(Flags[i].abbr);
    assert Fold(name) == AbbreviationColumn[i];
  }

  lemma FoldOfFolded(s: string)
    requires IsFolded(s)
    ensures Fold(s) == s
  {
  }

  /** A name whose folded form is no abbreviation is not found in the tool's table. */
  lemma LookupMisses(name: string)
    requires Fold(name) !in AbbreviationColumn
    ensures Lookup(Flags, name).None?
  {
    if Lookup(Flags, name).Some? {
      LookupFoundIsAbbreviation(name);
    }
  }

  /** The token starts with a '+' or '-' sign. */
  predicate IsSigned(arg: string)
  {
    |arg| > 0 && (arg[0] == '+' || arg[0] == '-')
  }

  /** The value a signed token changes `current` to by `bits`: OR for '+', AND-NOT for '-'. */
  function Signed(sign: char, current: DWord, bits: DWord): DWord
  {
    if sign == '+' then current | bits else current & !bits
  }

  /** The bits a signed token names: its abbreviation's flag, or else its hex reading. */
  function TokenBits(table: seq<FlagInfo>, rest: string): DWord
  {
    match Lookup(table, rest)
    case Some(i) => table[i].flag
    case None => Wcstoul16(rest)
  }

  /**
   * The value after ParseFlags(arg) starting from `current`: a signed token
   * naming an abbreviation sets ('+') or clears ('-') that entry's bit;
   * otherwise an unsigned token replaces the value by its base-16 parse and
   * a signed one ORs in or AND-NOTs out the parse of the rest.
   */
  function ApplyToken(table: seq<FlagInfo>, current: DWord, arg: string): DWord
  {
    if IsSigned(arg) then Signed(arg[0], current, TokenBits(table, arg[1..]))
    else Wcstoul16(arg)
  }

  /** The text after a one-character sign. */
  lemma AfterSign(sign: char, rest: string)
    ensures ([sign] + rest)[1..] == rest && ([sign] + rest)[0] == sign && IsSigned([sign] + rest) == (sign == '+' || sign == '-')
  {
  }

  /**
   * "+abbr" sets exactly the bit of the entry abbr names (ignoring case) and
   * "-abbr" clears exactly it.
   */
  lemma SignedAbbreviationSetsOrClearsBit(table: seq<FlagInfo>, current: DWord, sign: char, name: string, i: nat)
    requires WellFormedTable(table) && i < |table| && EqualsIgnoreCase(name, table[i].abbr)
    requires sign == '+' || sign == '-'
    ensures ApplyToken(table, current, [sign] + name) == Signed(sign, current, table[i].flag)
  {
    LookupFinds(table, name, i);
    AfterSign(sign, name);
  }

  /** Setting bit b leaves b set and changes no other bit. */
  lemma SetTouchesOnlyBit(v: DWord, b: DWord)
    ensures Signed('+', v, b) & !b == v & !b && Signed('+', v, b) & b == b
  {
  }

  /** Clearing bit b leaves b clear and changes no other bit. */
  lemma ClearTouchesOnlyBit(v: DWord, b: DWord)
    ensures Signed('-', v, b) & !b == v & !b && Signed('-', v, b) & b == 0
  {
  }

  /** Setting a bit by abbreviation and clearing it again restores a value that lacked it (0 in particular). */
  lemma SetThenClearRestores(table: seq<FlagInfo>, current: DWord, name: string, i: nat)
    requires WellFormedTable(table) && i < |table| && EqualsIgnoreCase(name, table[i].abbr)
    requires current & table[i].flag == 0
    ensures ApplyToken(table, ApplyToken(table, current, ['+'] + name), ['-'] + name) == current
  {
    SignedAbbreviationSetsOrClearsBit(table, current, '+', name, i);
    SignedAbbreviationSetsOrClearsBit(table, Signed('+', current, table[i].flag), '-', name, i);
    ClearAfterSet(current, table[i].flag);
  }

  /** Clearing a bit that was just set onto a value lacking it gives the value back. */
  lemma ClearAfterSet(v: DWord, b: DWord)
    requires v & b == 0
    ensures Signed('-', Signed('+', v, b), b) == v
  {
  }

  /** An unsigned token replaces the value: the old value plays no part. */
  lemma UnsignedTokenReplaces(table: seq<FlagInfo>, current: DWord, other: DWord, arg: string)
    requires !IsSigned(arg)
    ensures ApplyToken(table, current, arg) == ApplyToken(table, other, arg) == Wcstoul16(arg)
  {
  }

  /** A signed token whose name is found at n applies that entry's bit by its sign. */
  lemma SignedNameApplies(table: seq<FlagInfo>, current: DWord, arg: string, n: nat)
    requires IsSigned(arg) && Lookup(table, arg[1..]) == Some(n)
    ensures ApplyToken(table, current, arg) == Signed(arg[0], current, table[n].flag)
  {
  }

  /** A signed token that names no abbreviation is a hex delta. */
  lemma SignedHexDelta(table: seq<FlagInfo>, current: DWord, sign: char, rest: string)
    requires Lookup(table, rest).None?
    requires sign == '+' || sign == '-'
    ensures ApplyToken(table, current, [sign] + rest) == Signed(sign, current, Wcstoul16(rest))
  {
    AfterSign(sign, rest);
  }

  /** Every abbreviation has three characters. */
  lemma AbbreviationLengths()
    ensures forall k :: 0 <= k < |AbbreviationColumn| ==> |AbbreviationColumn[k]| == 3
  {
  }

  /** A name of other than three characters is never one of the tool's abbreviations. */
  lemma ShortNameMisses(name: string)
    requires |name| != 3
    ensures Lookup(Flags, name).None?
  {
    AbbreviationLengths();
    LookupMisses(name);
  }

  lemma HexDigitsExample(s: string, v: DWord)
    requires s != [] && AllHexDigits(s) && HexValue(s) == v as int
    ensures Wcstoul16(s) == v
  {
    Wcstoul16OfDigits(s);
  }

  /** "10" on 0xFF gives 0x10 (a reset, not a merge). */
  lemma BareHexResets()
    ensures ApplyToken(Flags, 0xFF, "10") == 0x10
  {
    HexDigitsExample("10", 0x10);
  }

  /** "+20" on 0x10 gives 0x30: the rest of a signed token that names no entry is read as hex. */
  lemma SignedHexSets()
    ensures ApplyToken(Flags, 0x10, "+20") == 0x30
  {
    HexDigitsExample("20", 0x20);
    ShortNameMisses("20");
    SignedHexDelta(Flags, 0x10, '+', "20");
    assert ['+'] + "20" == "+20";
  }

  /** "-10" on 0x30 gives 0x20. */
  lemma SignedHexClears()
    ensures ApplyToken(Flags, 0x30, "-10") == 0x20
  {
    HexDigitsExample("10", 0x10);
    ShortNameMisses("10");
    SignedHexDelta(Flags, 0x30, '-', "10");
    assert ['-'] + "10" == "-10";
  }

  /** The abbreviation wins over the hex reading for signed tokens: "+d32" sets 0x20000, not 0xD32. */
  lemma AbbreviationBeforeHex(current: DWord)
    ensures ApplyToken(Flags, current, "+d32") == current | EnableCsrDebug
  {
    assert Flags[16].abbr == "d32" && Flags[16].flag == EnableCsrDebug;
    assert "+d32"[1..] == "d32";
    LookupFlagsAt("d32", 16);
    SignedNameApplies(Flags, current, "+d32", 16);
  }

  /** An unsigned "d32" never consults the table and replaces the value by 0xD32. */
  lemma UnsignedIsAlwaysHex(current: DWord)
    ensures ApplyToken(Flags, current, "d32") == 0xD32
  {
    assert "d32"[..2] == "d3" && "d3"[..1] == "d";
    HexDigitsExample("d32", 0xD32);
  }

  /** Names equal ignoring case are found at the same entry, from any starting point. */
  lemma {:induction false} FindIgnoresCase(table: seq<FlagInfo>, a: string, b: string, from: nat)
    requires from <= |table| && EqualsIgnoreCase(a, b)
    ensures FindAbbreviation(table, a, from) == FindAbbreviation(table, b, from)
    decreases |table| - from
  {
    if from < |table| {
      EqualsIgnoreCaseIffFoldsEqual(a, b);
      EqualsIgnoreCaseIffFoldsEqual(a, table[from].abbr);
      EqualsIgnoreCaseIffFoldsEqual(b, table[from].abbr);
      FindIgnoresCase(table, a, b, from + 1);
    }
  }

  /** A signed token naming an entry has the same effect whatever the case of the name: "+SOE" is "+soe". */
  lemma TokenIgnoresCase(table: seq<FlagInfo>, current: DWord, sign: char, a: string, b: string)
    requires sign == '+' || sign == '-'
    requires EqualsIgnoreCase(a, b) && Lookup(table, a).Some?
    ensures ApplyToken(table, current, [sign] + a) == ApplyToken(table, current, [sign] + b)
  {
    FindIgnoresCase(table, a, b, 0);
    AfterSign(sign, a);
    AfterSign(sign, b);
  }

  /**
   * A signed token whose rest names no entry and does not start a number
   * reads as 0 and leaves the value unchanged ("-zzz").
   */
  lemma DigitlessDeltaKeeps(table: seq<FlagInfo>, current: DWord, sign: char, rest: string)
    requires sign == '+' || sign == '-'
    requires Lookup(table, rest).None?
    requires rest != [] && !IsSpace(rest[0]) && rest[0] != '+' && rest[0] != '-' && !IsHexDigit(rest[0])
    ensures ApplyToken(table, current, [sign] + rest) == current
  {
    SignedHexDelta(table, current, sign, rest);
    Wcstoul16NoDigits(rest);
    assert Signed(sign, current, 0) == current;
  }

  /** An unsigned token that does not start a number resets the value to 0 ("zzz"). */
  lemma DigitlessTokenResets(table: seq<FlagInfo>, current: DWord, arg: string)
    requires arg != [] && !IsSpace(arg[0]) && arg[0] != '+' && arg[0] != '-' && !IsHexDigit(arg[0])
    ensures ApplyToken(table, current, arg) == 0
  {
    Wcstoul16NoDigits(arg);
  }

  // ---------------------------------------------------------------------
  // PrintFlags

  /** The settings name in the header PrintFlags writes: registry wins over kernel; image has none. */
  function HeaderName(dest: DWord): string
  {
    var name := if dest & (DestKernel as DWord) != 0 then "Running Kernel" else "";
    if dest & (DestRegistry as DWord) != 0 then "Boot Registry" else name
  }

  /** The header names the registry for -r, the kernel for -k and nothing for -i. */
  lemma HeaderNames()
    ensures HeaderName(DestRegistry as DWord) == "Boot Registry"
    ensures HeaderName(DestKernel as DWord) == "Running Kernel"
    ensures HeaderName(DestImage as DWord) == ""
  {
  }

  /** Entry k's bit is set in v. */
  predicate HasBit(table: seq<FlagInfo>, v: DWord, k: nat)
    requires k < |table|
  {
    table[k].flag & v != 0
  }

  /** The indices below n, in table order, of the entries whose bit is set in v. */
  function Listed(table: seq<FlagInfo>, v: DWord, n: nat): seq<nat>
    requires n <= |table|
  {
    if n == 0 then [] else Listed(table, v, n - 1) + (if HasBit(table, v, n - 1) then [n - 1] else [])
  }

  /** Listed holds only indices below n. */
  lemma {:induction false} ListedBelow(table: seq<FlagInfo>, v: DWord, n: nat)
    requires n <= |table|
    ensures forall j :: 0 <= j < |Listed(table, v, n)| ==> Listed(table, v, n)[j] < n
  {
    if n > 0 {
      ListedBelow(table, v, n - 1);
    }
  }

  /** Listed is strictly increasing: table order, no index twice. */
  lemma {:induction false} ListedIncreasing(table: seq<FlagInfo>, v: DWord, n: nat)
    requires n <= |table|
    ensures forall j, k :: 0 <= j < k < |Listed(table, v, n)| ==> Listed(table, v, n)[j] < Listed(table, v, n)[k]
  {
    if n > 0 {
      ListedIncreasing(table, v, n - 1);
      ListedBelow(table, v, n - 1);
    }
  }

  /** Listed holds exactly the indices below n whose bit is set. */
  lemma {:induction false} ListedExactly(table: seq<FlagInfo>, v: DWord, n: nat)
    requires n <= |table|
    ensures forall k :: 0 <= k < n ==> (k in Listed(table, v, n) <==> HasBit(table, v, k))
  {
    if n > 0 {
      ListedExactly(table, v, n - 1);
      ListedBelow(table, v, n - 1);
    }
  }

  /**
   * PrintFlags: the header's settings name, the value as "%08x" (which
   * wcstoul reads back, Wcstoul16OfFormatHex08) and, in table order, the
   * entries whose bit is set (ListedBelow, ListedIncreasing, ListedExactly).
   */
  method PrintFlags(table: seq<FlagInfo>, flags: DWord, dest: DWord) returns (name: string, hex: string, listed: seq<nat>)
    ensures name == HeaderName(dest) && hex == FormatHex08(flags)
    ensures listed == Listed(table, flags, |table|)
  {
    name := HeaderName(dest);
    hex := FormatHex08(flags);
    listed := ListSetFlags(table, flags);
  }

  /** The loop of PrintFlags: the entries whose bit is set, in table order. */
  method ListSetFlags(table: seq<FlagInfo>, flags: DWord) returns (listed: seq<nat>)
    ensures listed == Listed(table, flags, |table|)
  {
    listed := [];
    var n := 0;
    while n < |table|
      invariant 0 <= n <= |table|
      invariant listed == Listed(table, flags, n)
    {
      if table[n].flag & flags != 0 {
        listed := listed + [n];
      }
      n := n + 1;
    }
  }

  // ---------------------------------------------------------------------
  // ParseCommandline

  /** What the storage calls a command line may trigger return (the OS is not modelled). */
  datatype Env = Env(debugEnabled: bool, registryKey: KeyOpen, imageKey: KeyOpen,
                     functionsResolved: bool, kernel: KernelQuery)

  /** The console globals g_ActiveDest, g_ActiveFlags, g_ImageName, and the number of license texts shown. */
  datatype Cli = Cli(dest: DWord, flags: DWord, imageName: string, licenses: nat)

  /** Why the argument loop stopped: it ran out of arguments, hit a usage error, or a read failed. */
  datatype Stop = Completed | UsageStop | ReadStop(dest: DWord)

  datatype Scanned = Scanned(stop: Stop, st: Cli)

  /** g_ImageName holds 128 characters including the terminator. */
  const ImageNameCapacity: nat := 128

  /** The read ParseCommandline issues for destination `dest`. */
  function ReadDest(dest: DWord, imageName: string, env: Env): ReadResult
  {
    if dest == DestImage as DWord then ReadImageGlobalFlagsFromRegistry(imageName, env.debugEnabled, env.imageKey)
    else if dest == DestRegistry as DWord then ReadGlobalFlagsFromRegistry(env.debugEnabled, env.registryKey)
    else ReadGlobalFlagsFromKernel(env.functionsResolved, env.kernel)
  }

  /** Select `dest` (its image name already stored) and read its flags; a failed read stops the loop. */
  function Select(table: seq<FlagInfo>, argv: seq<string>, next: nat, dest: DWord, st: Cli, env: Env): Scanned
    requires next <= |argv|
    decreases |argv| - next + 1, 1
  {
    var r := ReadDest(dest, st.imageName, env);
    var st' := st.(dest := dest, flags := StoreThrough(st.flags, r));
    if r.Success? then Scan(table, argv, next, st', env) else Scanned(ReadStop(dest), st')
  }

  /** The loop of ParseCommandline from argument n on. */
  function Scan(table: seq<FlagInfo>, argv: seq<string>, n: nat, st: Cli, env: Env): Scanned
    decreases |argv| - n + 1, 0
  {
    if n >= |argv| then Scanned(Completed, st)
    else
      var arg := argv[n];
      var isImage := IsCommandlineOption(arg, "i");
      var isRegistry := !isImage && IsCommandlineOption(arg, "r");
      if isImage || isRegistry || IsCommandlineOption(arg, "k") then
        if st.dest != 0 then Scanned(UsageStop, st)
        else if isImage then
          if n + 1 < |argv| then
            Select(table, argv, n + 2, DestImage as DWord,
                   st.(imageName := CopyTruncated(argv[n + 1], ImageNameCapacity)), env)
          else Scanned(UsageStop, st.(dest := DestImage as DWord))
        else if isRegistry then Select(table, argv, n + 1, DestRegistry as DWord, st, env)
        else Select(table, argv, n + 1, DestKernel as DWord, st, env)
      else if IsLicenseOption(arg) then Scan(table, argv, n + 1, st.(licenses := st.licenses + 1), env)
      else if st.dest != 0 then Scan(table, argv, n + 1, st.(flags := ApplyToken(table, st.flags, arg)), env)
      else Scanned(UsageStop, st)
  }

  /** The argument list of a run: argv[0] is the program name, the loop starts at 1. */
  function Run(table: seq<FlagInfo>, argv: seq<string>, st: Cli, env: Env): Scanned
  {
    Scan(table, argv, 1, st, env)
  }

  /** What ParseCommandline ends in. */
  datatype Outcome =
    | Usage                                                               // usage on stderr, exit(1)
    | ReadFailed(dest: DWord)                                             // read error on stderr, exit(1)
    | Display(dest: DWord, flags: DWord, name: string, hex: string, listed: seq<nat>)  // PrintFlags, exit(0)
    | ShowUI                                                              // returns: the dialog is shown

  /** The process exit code of an outcome; None when ParseCommandline returns. */
  function ExitCode(o: Outcome): (code: Option<int>)
    ensures code == None <==> o.ShowUI?
    ensures code == Some(0) <==> o.Display?
    ensures code == Some(1) <==> o.Usage? || o.ReadFailed?
  {
    match o
    case Usage => Some(1)
    case ReadFailed(_) => Some(1)
    case Display(_, _, _, _, _) => Some(0)
    case ShowUI => None
  }

  /** The outcome of a finished loop: flags are displayed as read and edited, without masking. */
  function Finish(table: seq<FlagInfo>, s: Scanned): Outcome
  {
    match s.stop
    case UsageStop => Usage
    case ReadStop(d) => ReadFailed(d)
    case Completed =>
      if s.st.dest != 0 then Display(s.st.dest, s.st.flags, HeaderName(s.st.dest), FormatHex08(s.st.flags), Listed(table, s.st.flags, |table|))
      else ShowUI
  }

  /** A second destination option is a usage error. */
  lemma SecondDestinationIsUsage(table: seq<FlagInfo>, argv: seq<string>, n: nat, st: Cli, env: Env)
    requires n < |argv| && st.dest != 0 && IsDestOption(argv[n])
    ensures Scan(table, argv, n, st, env).stop == UsageStop
  {
  }

  /** -i as the last argument, without an image name, is a usage error. */
  lemma MissingImageNameIsUsage(table: seq<FlagInfo>, argv: seq<string>, st: Cli, env: Env)
    requires |argv| > 0 && st.dest == 0 && IsCommandlineOption(argv[|argv| - 1], "i")
    ensures Scan(table, argv, |argv| - 1, st, env).stop == UsageStop
  {
  }

  /** Before a destination, an argument that is neither an option nor a license request is a usage error. */
  lemma UnexpectedArgumentIsUsage(table: seq<FlagInfo>, argv: seq<string>, n: nat, st: Cli, env: Env)
    requires n < |argv| && st.dest == 0 && !IsDestOption(argv[n]) && !IsLicenseOption(argv[n])
    ensures Scan(table, argv, n, st, env).stop == UsageStop
  {
  }

  /** Edit tokens applied left to right. */
  function ApplyAll(table: seq<FlagInfo>, v: DWord, tokens: seq<string>): DWord
    decreases |tokens|
  {
    if tokens == [] then v else ApplyAll(table, ApplyToken(table, v, tokens[0]), tokens[1..])
  }

  /** Neither a destination option nor a license option: once a destination is chosen, a flag token. */
  predicate IsEditToken(arg: string)
  {
    !IsDestOption(arg) && !IsLicenseOption(arg)
  }

  /**
   * With a destination chosen, a tail of edit tokens completes the loop with
   * every token applied, left to right, to the flags read; nothing else changes.
   */
  lemma {:induction false} EditTokensApplyInOrder(table: seq<FlagInfo>, argv: seq<string>, n: nat, st: Cli, env: Env)
    requires n <= |argv| && st.dest != 0
    requires forall k :: n <= k < |argv| ==> IsEditToken(argv[k])
    ensures var s := Scan(table, argv, n, st, env);
      s.stop == Completed && s.st.dest == st.dest && s.st.imageName == st.imageName
      && s.st.licenses == st.licenses && s.st.flags == ApplyAll(table, st.flags, argv[n..])
    decreases |argv| - n
  {
    if n < |argv| {
      assert IsEditToken(argv[n]);
      EditTokensApplyInOrder(table, argv, n + 1, st.(flags := ApplyToken(table, st.flags, argv[n])), env);
      assert argv[n..][1..] == argv[n + 1..];
    }
  }

  /** The destination word is 0 or exactly one DEST_* bit. */
  predicate OneDest(dest: DWord)
  {
    dest == 0 || dest == DestRegistry as DWord || dest == DestKernel as DWord || dest == DestImage as DWord
  }

  /** The loop never holds more than one destination. */
  lemma {:induction false} ScanKeepsOneDest(table: seq<FlagInfo>, argv: seq<string>, n: nat, st: Cli, env: Env)
    requires OneDest(st.dest)
    ensures OneDest(Scan(table, argv, n, st, env).st.dest)
    decreases |argv| - n
  {
    if n < |argv| {
      var arg := argv[n];
      if IsDestOption(arg) && st.dest == 0 {
        if IsCommandlineOption(arg, "i") {
          if n + 1 < |argv| {
            var st1 := st.(imageName := CopyTruncated(argv[n + 1], ImageNameCapacity));
            var r := ReadDest(DestImage as DWord, st1.imageName, env);
            ScanKeepsOneDest(table, argv, n + 2, st1.(dest := DestImage as DWord, flags := StoreThrough(st1.flags, r)), env);
          }
        } else if IsCommandlineOption(arg, "r") {
          var r := ReadDest(DestRegistry as DWord, st.imageName, env);
          ScanKeepsOneDest(table, argv, n + 1, st.(dest := DestRegistry as DWord, flags := StoreThrough(st.flags, r)), env);
        } else {
          var r := ReadDest(DestKernel as DWord, st.imageName, env);
          ScanKeepsOneDest(table, argv, n + 1, st.(dest := DestKernel as DWord, flags := StoreThrough(st.flags, r)), env);
        }
      } else if !IsDestOption(arg) && IsLicenseOption(arg) {
        ScanKeepsOneDest(table, argv, n + 1, st.(licenses := st.licenses + 1), env);
      } else if !IsDestOption(arg) && st.dest != 0 {
        ScanKeepsOneDest(table, argv, n + 1, st.(flags := ApplyToken(table, st.flags, arg)), env);
      }
    }
  }

  /** The zeroed statics ParseCommandline starts from. */
  const Initial: Cli := Cli(0, 0, [], 0)

  /** No arguments: the loop does nothing and the dialog is shown. */
  lemma NoArgumentsShowUI(table: seq<FlagInfo>, env: Env)
    ensures Finish(table, Run(table, ["gflags"], Initial, env)) == ShowUI
  {
  }

  /** "-r" alone displays the registry value read, and exits 0. */
  lemma RegistryOnlyDisplays(table: seq<FlagInfo>, env: Env, v: DWord)
    requires env.debugEnabled && env.registryKey == KeyOpened(QueryData(true, v))
    ensures var o := Finish(table, Run(table, ["gflags", "-r"], Initial, env));
      o.Display? && o.dest == DestRegistry as DWord && o.flags == v && ExitCode(o) == Some(0)
  {
    assert "-r"[1..] == "r";
    assert "-r"[1..] != "i";
  }

  /** A registry read that fails, for whatever reason, ends in exit 1. */
  lemma RegistryReadFailureExits(table: seq<FlagInfo>, env: Env)
    requires !ReadGlobalFlagsFromRegistry(env.debugEnabled, env.registryKey).Success?
    ensures Finish(table, Run(table, ["gflags", "-r"], Initial, env)) == ReadFailed(DestRegistry as DWord)
  {
    assert "-r"[1..] == "r";
    assert "-r"[1..] != "i";
  }

  /** A kernel query that fails ends in exit 1. */
  lemma KernelReadFailureExits(table: seq<FlagInfo>, env: Env)
    requires !ReadGlobalFlagsFromKernel(env.functionsResolved, env.kernel).Success?
    ensures Finish(table, Run(table, ["gflags", "-k"], Initial, env)) == ReadFailed(DestKernel as DWord)
  {
    assert "-k"[1..] == "k";
    assert "-k"[1..] != "i" && "-k"[1..] != "r";
  }

  /** An image read that fails ends in exit 1. */
  lemma ImageReadFailureExits(table: seq<FlagInfo>, name: string, env: Env)
    requires !ReadImageGlobalFlagsFromRegistry(CopyTruncated(name, ImageNameCapacity), env.debugEnabled, env.imageKey).Success?
    ensures Finish(table, Run(table, ["gflags", "-i", name], Initial, env)) == ReadFailed(DestImage as DWord)
  {
    assert "-i"[1..] == "i";
    ImageOptionSelects(table, ["gflags", "-i", name], 1, Initial, env);
  }

  /** "-r -k" is a usage error, exit 1. */
  lemma TwoDestinationsIsUsage(table: seq<FlagInfo>, env: Env, v: DWord)
    requires env.debugEnabled && env.registryKey == KeyOpened(QueryData(true, v))
    ensures Finish(table, Run(table, ["gflags", "-r", "-k"], Initial, env)) == Usage
  {
    assert "-r"[1..] == "r";
    assert "-r"[1..] != "i";
    assert "-k"[1..] == "k";
  }

  /** "-i" without an image name is a usage error. */
  lemma ImageWithoutNameIsUsage(table: seq<FlagInfo>, env: Env)
    ensures Finish(table, Run(table, ["gflags", "-i"], Initial, env)) == Usage
  {
    assert "-i"[1..] == "i";
  }

  /**
   * The display is not masked: "-i name" followed by edit tokens, on an image
   * without a key, shows the tokens applied to 0 whether or not the bits they
   * set are valid for images (see DicIsShownForImages).
   */
  lemma ImageDisplayIsUnmasked(table: seq<FlagInfo>, name: string, tokens: seq<string>, env: Env)
    requires env.debugEnabled && env.imageKey == KeyOpenFailed(ErrorFileNotFound)
    requires forall k :: 0 <= k < |tokens| ==> IsEditToken(tokens[k])
    ensures var o := Finish(table, Run(table, ["gflags", "-i", name] + tokens, Initial, env));
      o.Display? && o.dest == DestImage as DWord && o.flags == ApplyAll(table, 0, tokens)
  {
    var argv := ["gflags", "-i", name] + tokens;
    assert "-i"[1..] == "i";
    var st := Initial.(imageName := CopyTruncated(name, ImageNameCapacity));
    ImageOptionSelects(table, argv, 1, Initial, env);
    MissingImageKeyReadsZero(st.imageName);
    var st' := st.(dest := DestImage as DWord, flags := 0);
    assert Select(table, argv, 3, DestImage as DWord, st, env) == Scan(table, argv, 3, st', env);
    assert argv[3..] == tokens;
    EditTokensApplyInOrder(table, argv, 3, st', env);
  }

  /** "-i" with a following argument takes it as the image name and selects the image destination. */
  lemma ImageOptionSelects(table: seq<FlagInfo>, argv: seq<string>, n: nat, st: Cli, env: Env)
    requires n + 1 < |argv| && st.dest == 0 && IsCommandlineOption(argv[n], "i")
    ensures Scan(table, argv, n, st, env)
      == Select(table, argv, n + 2, DestImage as DWord, st.(imageName := CopyTruncated(argv[n + 1], ImageNameCapacity)), env)
  {
  }

  /** "+dic" applied to 0 gives DebugInitialCommand, a bit no image may carry. */
  lemma DicIsShownForImages()
    ensures ApplyAll(Flags, 0, ["+dic"]) == DebugInitialCommand
    ensures DebugInitialCommand & ValidMask(DestImage) == 0
  {
    assert Flags[2].abbr == "dic" && Flags[2].flag == DebugInitialCommand;
    assert "+dic"[1..] == "dic";
    LookupFlagsAt("dic", 2);
    SignedNameApplies(Flags, 0, "+dic", 2);
    assert ["+dic"][1..] == [];
    DebugInitialCommandIsRegistryOnly();
  }

  /** The process-wide state of the console front end. */
  class Console {
    /** g_Flags, the table the console works with. */
    const table: seq<FlagInfo>
    var activeDest: DWord
    var activeFlags: DWord
    var imageName: string

    /** The statics start zeroed, over the tool's table. */
    constructor ()
      ensures table == Flags && WellFormedTable(table)
      ensures activeDest == 0 && activeFlags == 0 && imageName == []
    {
      table := Flags;
      activeDest, activeFlags, imageName := 0, 0, [];
      FlagsWellFormedTable();
    }

    function State(licenses: nat): Cli
      reads this
    {
      Cli(activeDest, activeFlags, imageName, licenses)
    }

    /** The for loop of ParseFlags: the first entry whose abbreviation equals name ignoring case. */
    method FindFlag(name: string) returns (found: Option<nat>)
      ensures found == Lookup(table, name)
    {
      var n := 0;
      while n < |table|
        invariant 0 <= n <= |table|
        invariant Lookup(table, name) == FindAbbreviation(table, name, n)
      {
        if EqualsIgnoreCase(name, table[n].abbr) {
          return Some(n);
        }
        n := n + 1;
      }
      return None;
    }

    /**
     * ParseFlags: apply one flag token to g_ActiveFlags. The source's
     * "'+' ? |= : &= ~" choice is Signed.
     */
    method ParseFlags(arg: string)
      modifies this`activeFlags
      ensures activeFlags == ApplyToken(table, old(activeFlags), arg)
    {
      if IsSigned(arg) {
        var found := FindFlag(arg[1..]);
        if found.Some? {
          activeFlags := Signed(arg[0], activeFlags, table[found.value].flag);
          return;
        }
      }
      if !IsSigned(arg) {
        activeFlags := Wcstoul16(arg);
      } else {
        activeFlags := Signed(arg[0], activeFlags, Wcstoul16(arg[1..]));
      }
    }

    /** Select a destination and read its current flags into g_ActiveFlags. */
    method SelectDest(dest: DWord, env: Env) returns (ok: bool)
      modifies this`activeDest, this`activeFlags
      ensures activeDest == dest
      ensures var r := ReadDest(dest, imageName, env);
        activeFlags == StoreThrough(old(activeFlags), r) && ok == r.Success?
    {
      activeDest := dest;
      var r := ReadDest(dest, imageName, env);
      activeFlags := StoreThrough(activeFlags, r);
      ok := r.Success?;
    }

    /**
     * One turn of ParseCommandline's loop on argv[n]: the argument index it
     * moves to and whether the loop stops there.
     */
    method Step(argv: seq<string>, n: nat, env: Env, licenses: nat) returns (next: nat, stop: Stop, licenses': nat)
      requires n < |argv|
      modifies this`activeDest, this`activeFlags, this`imageName
      ensures stop == Completed ==> next > n && Scan(table, argv, n, old(State(licenses)), env) == Scan(table, argv, next, State(licenses'), env)
      ensures stop != Completed ==> next == n && Scan(table, argv, n, old(State(licenses)), env) == Scanned(stop, State(licenses'))
    {
      next, stop, licenses' := n, Completed, licenses;
      var arg := argv[n];
      var isImage := IsCommandlineOption(arg, "i");
      var isRegistry := !isImage && IsCommandlineOption(arg, "r");
      if isImage || isRegistry || IsCommandlineOption(arg, "k") {
        if activeDest != 0 {
          stop := UsageStop;
        } else if isImage {
          activeDest := DestImage as DWord;
          if n + 1 < |argv| {
            imageName := CopyTruncated(argv[n + 1], ImageNameCapacity);
            var ok := SelectDest(DestImage as DWord, env);
            if ok { next := n + 2; } else { stop := ReadStop(DestImage as DWord); }
          } else {
            stop := UsageStop;
          }
        } else if isRegistry {
          var ok := SelectDest(DestRegistry as DWord, env);
          if ok { next := n + 1; } else { stop := ReadStop(DestRegistry as DWord); }
        } else {
          var ok := SelectDest(DestKernel as DWord, env);
          if ok { next := n + 1; } else { stop := ReadStop(DestKernel as DWord); }
        }
      } else if IsLicenseOption(arg) {
        licenses' := licenses + 1;
        next := n + 1;
      } else if activeDest != 0 {
        ParseFlags(arg);
        next := n + 1;
      } else {
        stop := UsageStop;
      }
    }

    /**
     * ParseCommandline: walk argv left to right, then report usage, a read
     * failure, or the selected destination's current (unmasked) flags; with
     * no destination it returns so that the dialog is shown.
     */
    method ParseCommandline(argv: seq<string>, env: Env) returns (outcome: Outcome, licenses: nat)
      modifies this`activeDest, this`activeFlags, this`imageName
      ensures var s := Run(table, argv, old(State(0)), env);
        outcome == Finish(table, s) && State(licenses) == s.st
    {
      var n := 1;
      licenses := 0;
      var stop := Completed;
      ghost var start := State(0);
      while n < |argv| && stop == Completed
        invariant stop == Completed ==> Run(table, argv, start, env) == Scan(table, argv, n, State(licenses), env)
        invariant stop != Completed ==> Run(table, argv, start, env) == Scanned(stop, State(licenses))
        decreases |argv| - n, if stop == Completed then 1 else 0
      {
        n, stop, licenses := Step(argv, n, env, licenses);
      }
      if stop == UsageStop {
        outcome := Usage;
      } else if stop.ReadStop? {
        outcome := ReadFailed(stop.dest);
      } else if activeDest != 0 {
        var name, hex, listed := PrintFlags(table, activeFlags, activeDest);
        outcome := Display(activeDest, activeFlags, name, hex, listed);
      } else {
        outcome := ShowUI;
      }
    }
  }
}
