// The property-sheet pages of dialog.cpp: checkboxes <-> bitmask conversion
// and the settings logic of the system-registry, kernel and image pages.
// Window handles, messages to the sheet and message boxes become plain
// state and results; the registry and kernel calls are abstract inputs.

module Dialog {
  import opened FlagDefs
  import opened CRuntime
  import opened GFlags

  /** The state of one checkbox control IDC_CHECK1 + n. */
  datatype Checkbox = Checkbox(visible: bool, checked: bool, enabled: bool)

  // ---------------------------------------------------------------------
  // Specification of the two conversions

  /**
   * How UpdateDialogFromFlags draws the box of entry e: shown when the entry
   * lists the page's destination, checked when its bit is in flags, and
   * enabled as asked.
   */
  function Drawn(e: FlagInfo, flags: DWord, dest: DWord, enable: bool): Checkbox
  {
    Checkbox(Overlap(e.dest as DWord, dest), Overlap(e.flag, flags), enable)
  }

  /** Every box of a page drawn from flags. */
  function DrawnAll(t: seq<FlagInfo>, flags: DWord, dest: DWord, enable: bool): (boxes: seq<Checkbox>)
    ensures |boxes| == |t|
  {
    if |t| == 0 then [] else DrawnAll(t[..|t| - 1], flags, dest, enable) + [Drawn(t[|t| - 1], flags, dest, enable)]
  }

  /** What box n adds to the value read from the page: its entry's bit when checked. */
  function CheckedBit(e: FlagInfo, box: Checkbox): DWord
  {
    if box.checked then e.flag else 0
  }

  /** The OR of the bits of exactly the entries whose box is checked. */
  function CheckedFlags(t: seq<FlagInfo>, boxes: seq<Checkbox>): DWord
    requires |boxes| == |t|
  {
    if |t| == 0 then 0
    else CheckedFlags(t[..|t| - 1], boxes[..|t| - 1]) | CheckedBit(t[|t| - 1], boxes[|t| - 1])
  }

  // ---------------------------------------------------------------------
  // Properties of the conversions

  lemma {:induction false} CheckedFlagsStep(t: seq<FlagInfo>, boxes: seq<Checkbox>, n: nat)
    requires |boxes| == |t| && n < |t|
    ensures CheckedFlags(t[..n + 1], boxes[..n + 1]) == CheckedFlags(t[..n], boxes[..n]) | CheckedBit(t[n], boxes[n])
  {
    assert t[..n + 1][..n] == t[..n];
    assert boxes[..n + 1][..n] == boxes[..n];
  }

  /** A bit that no entry shares is never read from the page. */
  lemma {:induction false} CheckedFlagsAvoid(t: seq<FlagInfo>, boxes: seq<Checkbox>, b: DWord)
    requires |boxes| == |t| && MissesAll(t, b)
    ensures b & CheckedFlags(t, boxes) == 0
  {
    if |t| > 0 {
      CheckedFlagsAvoid(t[..|t| - 1], boxes[..|t| - 1], b);
    }
  }

  /** The value read from a page has no bit that the table does not list. */
  lemma {:induction false} CheckedFlagsWithinTable(t: seq<FlagInfo>, boxes: seq<Checkbox>)
    requires |boxes| == |t|
    ensures CheckedFlags(t, boxes) & !TableBits(t) == 0
  {
    if |t| > 0 {
      CheckedFlagsWithinTable(t[..|t| - 1], boxes[..|t| - 1]);
    }
  }

  /**
   * The page seen as a destination column: entry k is listed under
   * destination 1 exactly when box k is checked.
   */
  function Marked(t: seq<FlagInfo>, boxes: seq<Checkbox>): (m: seq<FlagInfo>)
    requires |boxes| == |t|
    ensures |m| == |t|
  {
    if |t| == 0 then [] else Marked(t[..|t| - 1], boxes[..|t| - 1]) + [Mark(t[|t| - 1], boxes[|t| - 1])]
  }

  /** Entry e listed under destination 1 exactly when its box is checked. */
  function Mark(e: FlagInfo, box: Checkbox): (m: FlagInfo)
    ensures m.flag == e.flag
    ensures Contribution(m, 1) == CheckedBit(e, box)
  {
    e.(dest := if box.checked then 1 else 0)
  }

  /** Entry k of the marked table is entry k of the table, marked by box k. */
  lemma {:induction false} MarkedAt(t: seq<FlagInfo>, boxes: seq<Checkbox>, k: nat)
    requires |boxes| == |t| && k < |t|
    ensures Marked(t, boxes)[k] == Mark(t[k], boxes[k])
  {
    if k < |t| - 1 {
      MarkedAt(t[..|t| - 1], boxes[..|t| - 1], k);
    }
  }

  /** Reading the page is taking the mask of destination 1 over the marked table. */
  lemma {:induction false} CheckedFlagsAsMask(t: seq<FlagInfo>, boxes: seq<Checkbox>)
    requires |boxes| == |t|
    ensures CheckedFlags(t, boxes) == MaskOver(Marked(t, boxes), 1)
  {
    if |t| > 0 {
      var n := |t| - 1;
      CheckedFlagsAsMask(t[..n], boxes[..n]);
      AsMaskStep(t, boxes);
    }
  }

  /** The induction step of CheckedFlagsAsMask. */
  lemma {:induction false} AsMaskStep(t: seq<FlagInfo>, boxes: seq<Checkbox>)
    requires |boxes| == |t| && |t| > 0
    requires CheckedFlags(t[..|t| - 1], boxes[..|t| - 1]) == MaskOver(Marked(t[..|t| - 1], boxes[..|t| - 1]), 1)
    ensures CheckedFlags(t, boxes) == MaskOver(Marked(t, boxes), 1)
  {
    var m := Marked(t, boxes);
    assert m[..|t| - 1] == Marked(t[..|t| - 1], boxes[..|t| - 1]);
  }

  /** The box-by-box statement: a bit is set iff its box is checked. */
  lemma {:induction false} FlagsFromDialogIffChecked(t: seq<FlagInfo>, boxes: seq<Checkbox>, i: nat)
    requires |boxes| == |t| && WellFormedTable(t) && i < |t|
    ensures Overlap(t[i].flag, CheckedFlags(t, boxes)) <==> boxes[i].checked
  {
    MarkedOwnsBit(t, boxes, i);
    OwnedBitExact(Marked(t, boxes), 1, i);
    CheckedFlagsAsMask(t, boxes);
    MarkedBitRead(t[i], boxes[i], CheckedFlags(t, boxes));
  }

  /** In the marked table of a well-formed table, entry i still owns its nonzero bit. */
  lemma {:induction false} MarkedOwnsBit(t: seq<FlagInfo>, boxes: seq<Checkbox>, i: nat)
    requires |boxes| == |t| && WellFormedTable(t) && i < |t|
    ensures Marked(t, boxes)[i] == Mark(t[i], boxes[i])
    ensures Marked(t, boxes)[i].flag != 0 && OwnsBit(Marked(t, boxes), i)
  {
    var m := Marked(t, boxes);
    WellFormedOwnsBit(t, i);
    MarkedAt(t, boxes, i);
    forall k | 0 <= k < |m| && k != i ensures m[k].flag & m[i].flag == 0 {
      MarkedAt(t, boxes, k);
    }
  }

  /** MaskOverExact for an entry that owns its bit. */
  lemma {:induction false} OwnedBitExact(es: seq<FlagInfo>, d: Word, i: nat)
    requires i < |es| && es[i].flag != 0 && OwnsBit(es, i)
    ensures es[i].flag & MaskOver(es, d) != 0 <==> es[i].dest & d != 0
  {
    PrefixMisses(es, i);
    SuffixMisses(es, i);
    MaskOverExact(es, d, i);
  }

  /** Reading e's bit against x as the marked entry does is reading box's check state. */
  lemma {:induction false} MarkedBitRead(e: FlagInfo, box: Checkbox, x: DWord)
    requires Mark(e, box).flag & x != 0 <==> Mark(e, box).dest & 1 != 0
    ensures Overlap(e.flag, x) <==> box.checked
  {
    assert Mark(e, box).dest & 1 != 0 <==> box.checked;
  }

  /** The last box of a page drawn from v adds the last entry's bit f when f overlaps v. */
  lemma {:induction false} ReadBackUnfold(t: seq<FlagInfo>, v: DWord, dest: DWord, enable: bool, f: DWord)
    requires |t| > 0 && f == t[|t| - 1].flag
    ensures CheckedFlags(t, DrawnAll(t, v, dest, enable))
         == CheckedFlags(t[..|t| - 1], DrawnAll(t[..|t| - 1], v, dest, enable))
            | (if Overlap(f, v) then f else 0)
  {
    var boxes := DrawnAll(t, v, dest, enable);
    assert boxes[..|t| - 1] == DrawnAll(t[..|t| - 1], v, dest, enable);
  }

  /** The induction step of ReadBackDrawn, for a last entry whose bit f is a single bit. */
  lemma {:induction false} ReadBackStep(t: seq<FlagInfo>, v: DWord, dest: DWord, enable: bool, f: DWord)
    requires |t| > 0 && IsSingleBit(f) && f == t[|t| - 1].flag
    requires CheckedFlags(t[..|t| - 1], DrawnAll(t[..|t| - 1], v, dest, enable)) == v & TableBits(t[..|t| - 1])
    ensures CheckedFlags(t, DrawnAll(t, v, dest, enable)) == v & TableBits(t)
  {
    ReadBackUnfold(t, v, dest, enable, f);
    SingleBitMeets(f, v);
  }

  /**
   * Reading back a page drawn from v gives v restricted to the table's bits,
   * whatever the destination and enabled state: hidden boxes keep their
   * check state and contribute like the others.
   */
  lemma {:induction false} ReadBackDrawn(t: seq<FlagInfo>, v: DWord, dest: DWord, enable: bool)
    requires SingleBitFlags(t)
    ensures CheckedFlags(t, DrawnAll(t, v, dest, enable)) == v & TableBits(t)
  {
    if |t| > 0 {
      var n := |t| - 1;
      ReadBackDrawn(t[..n], v, dest, enable);
      ReadBackStep(t, v, dest, enable, t[n].flag);
    }
  }

  /** Box k of a page drawn from flags is entry k drawn from flags. */
  lemma {:induction false} DrawnAt(t: seq<FlagInfo>, flags: DWord, dest: DWord, enable: bool, k: nat)
    requires k < |t|
    ensures DrawnAll(t, flags, dest, enable)[k] == Drawn(t[k], flags, dest, enable)
  {
    if k < |t| - 1 {
      DrawnAt(t[..|t| - 1], flags, dest, enable, k);
    }
  }

  /**
   * UpdateDialogFromFlags treats every box alike: box k is checked exactly
   * when entry k's bit is in flags, shown exactly when entry k lists the
   * page's destination, and enabled as asked.
   */
  lemma BoxDrawn(t: seq<FlagInfo>, flags: DWord, dest: DWord, enable: bool, k: nat)
    requires k < |t|
    ensures var box := DrawnAll(t, flags, dest, enable)[k];
      (box.checked <==> t[k].flag & flags != 0)
      && (box.visible <==> (t[k].dest as DWord) & dest != 0)
      && box.enabled == enable
  {
    DrawnAt(t, flags, dest, enable, k);
  }

  /** A sequence of boxes that agrees with Drawn box by box is the drawn page. */
  lemma {:induction false} DrawnAllFromBoxes(t: seq<FlagInfo>, flags: DWord, dest: DWord, enable: bool, boxes: seq<Checkbox>)
    requires |boxes| == |t|
    requires forall k :: 0 <= k < |t| ==> boxes[k] == Drawn(t[k], flags, dest, enable)
    ensures boxes == DrawnAll(t, flags, dest, enable)
  {
    forall k | 0 <= k < |t| ensures boxes[k] == DrawnAll(t, flags, dest, enable)[k] {
      DrawnAt(t, flags, dest, enable, k);
    }
  }

  /** A single bit meets x & m exactly when it meets both x and m. */
  lemma SingleBitMeetsBoth(f: DWord, x: DWord, m: DWord)
    requires IsSingleBit(f)
    ensures Overlap(f, x & m) <==> Overlap(f, x) && Overlap(f, m)
  {
    SingleBitMeets(f, x);
    SingleBitMeets(f, m);
    SingleBitMeets(f, x & m);
  }

  /** In a well-formed table, box i alone decides whether entry i's single bit is read from the page. */
  lemma {:induction false} ReadBit(t: seq<FlagInfo>, boxes: seq<Checkbox>, i: nat, f: DWord)
    requires |boxes| == |t| && WellFormedTable(t) && i < |t| && f == t[i].flag
    ensures IsSingleBit(f)
    ensures Overlap(f, CheckedFlags(t, boxes)) <==> boxes[i].checked
  {
    FlagsFromDialogIffChecked(t, boxes, i);
  }

  /** A single bit read as c from x is read from x & m as c and its own membership in m. */
  lemma ReadBitMasked(f: DWord, x: DWord, m: DWord, c: bool)
    requires IsSingleBit(f) && (Overlap(f, x) <==> c)
    ensures Overlap(f, x & m) <==> c && Overlap(f, m)
  {
    SingleBitMeetsBoth(f, x, m);
  }

  /**
   * What an apply handler stores for a page of destination d:
   * FlagsFromDialog() & (the valid flags of d). It never holds a bit outside
   * that mask, nor one outside the table.
   */
  function Applied(t: seq<FlagInfo>, boxes: seq<Checkbox>, d: Word): (v: DWord)
    requires |boxes| == |t|
    ensures v & !MaskOver(t, d) == 0 && v & !TableBits(t) == 0
  {
    AppliedWithinMask(t, boxes, d);
    CheckedFlags(t, boxes) & MaskOver(t, d)
  }

  /** The bounds of Applied, over the expression it returns. */
  lemma AppliedWithinMask(t: seq<FlagInfo>, boxes: seq<Checkbox>, d: Word)
    requires |boxes| == |t|
    ensures var stored := CheckedFlags(t, boxes) & MaskOver(t, d);
      stored & !MaskOver(t, d) == 0 && stored & !TableBits(t) == 0
  {
    MaskOverWithinTable(t, d);
    WithinMaskAndTable(CheckedFlags(t, boxes), MaskOver(t, d), TableBits(t));
  }

  /**
   * What an apply handler stores, for a well-formed table: entry i's bit is
   * in Applied(t, boxes, d) exactly when box i is
   * checked and entry i lists d. A checked box whose flag the destination
   * does not accept (a hidden one, say) is dropped.
   */
  lemma {:induction false} AppliedBit(t: seq<FlagInfo>, boxes: seq<Checkbox>, d: Word, i: nat)
    requires |boxes| == |t| && WellFormedTable(t) && i < |t|
    ensures Overlap(t[i].flag, Applied(t, boxes, d)) <==> boxes[i].checked && t[i].dest & d != 0
  {
    AppliedBitOf(t, boxes, d, i, t[i].flag, CheckedFlags(t, boxes), MaskOver(t, d));
  }

  /** AppliedBit over names for the bit f, the value read x and the mask m. */
  lemma {:induction false} AppliedBitOf(t: seq<FlagInfo>, boxes: seq<Checkbox>, d: Word, i: nat, f: DWord, x: DWord, m: DWord)
    requires |boxes| == |t| && WellFormedTable(t) && i < |t|
    requires f == t[i].flag && x == CheckedFlags(t, boxes) && m == MaskOver(t, d)
    ensures Overlap(f, x & m) <==> boxes[i].checked && t[i].dest & d != 0
  {
    ReadBit(t, boxes, i, f);
    WellFormedOwnsBit(t, i);
    MaskOverExact(t, d, i);
    ReadBitMasked(f, x, m, boxes[i].checked);
  }

  /**
   * After an apply the page is redrawn from the stored value: box i stays
   * checked exactly when it was checked and entry i lists the page's
   * destination; every other box comes back unchecked.
   */
  lemma {:induction false} ApplyRedrawKeepsValidChecks(t: seq<FlagInfo>, boxes: seq<Checkbox>, d: Word, enable: bool, i: nat, stored: DWord)
    requires |boxes| == |t| && WellFormedTable(t) && i < |t|
    requires stored == Applied(t, boxes, d)
    ensures DrawnAll(t, stored, d as DWord, enable)[i].checked <==> boxes[i].checked && t[i].dest & d != 0
  {
    DrawnAt(t, stored, d as DWord, enable, i);
    AppliedBit(t, boxes, d, i);
  }

  /** A value masked by m stays inside m, and inside any bits m lies in. */
  lemma WithinMaskAndTable(x: DWord, m: DWord, bits: DWord)
    requires m & !bits == 0
    ensures (x & m) & !m == 0 && (x & m) & !bits == 0
  {
  }

  // ---------------------------------------------------------------------
  // WM_COMMAND

  /** LOWORD of a message parameter. */
  function LowWord(wParam: nat): (w: nat)
    ensures w < 0x1_0000
  {
    wParam % 0x1_0000
  }

  /** HIWORD of a 32-bit message parameter. */
  function HighWord(wParam: nat): (w: nat)
    ensures w < 0x1_0000
  {
    (wParam / 0x1_0000) % 0x1_0000
  }

  /** The dialog-resource ids the pages test (their values are fixed by the dialog resource). */
  datatype ControlIds = ControlIds(check1: nat, check31: nat, editImageName: nat)

  /** EN_KILLFOCUS, the edit-control notification for losing the focus. */
  const EnKillFocus: nat := 0x0200

  /** HandleWMCommand: the command is a click on one of the checkboxes IDC_CHECK1..IDC_CHECK31. */
  predicate IsCheckboxCommand(ids: ControlIds, wParam: nat)
  {
    ids.check1 <= LowWord(wParam) <= ids.check31
  }

  /** Only the control id in the low word decides; the notification code in the high word plays no part. */
  lemma CheckboxCommandIgnoresHighWord(ids: ControlIds, id: nat, code: nat)
    requires id < 0x1_0000
    ensures IsCheckboxCommand(ids, code * 0x1_0000 + id) <==> ids.check1 <= id <= ids.check31
  {
    assert (code * 0x1_0000 + id) % 0x1_0000 == id;
  }

  // ---------------------------------------------------------------------
  // The pages

  /** The 31 checkbox controls IDC_CHECK1 + n of one property page. */
  class Page {
    /** g_Flags: box n stands for entry n. */
    const table: seq<FlagInfo>
    const boxes: array<Checkbox>

    /** The page as the dialog resource creates it. */
    constructor (t: seq<FlagInfo>, initial: seq<Checkbox>)
      requires |initial| == |t|
      ensures table == t && fresh(boxes) && boxes[..] == initial
    {
      table := t;
      boxes := new Checkbox[|initial|](k requires 0 <= k < |initial| => initial[k]);
    }

    /** UpdateDialogFromFlags: set every box's visibility, check state and enabled state. */
    method UpdateDialogFromFlags(flags: DWord, dest: DWord, enable: bool)
      requires boxes.Length == |table|
      modifies boxes
      ensures boxes[..] == DrawnAll(table, flags, dest, enable)
    {
      var n := 0;
      while n < |table|
        invariant 0 <= n <= |table|
        invariant forall k :: 0 <= k < n ==> boxes[k] == Drawn(table[k], flags, dest, enable)
      {
        boxes[n] := Drawn(table[n], flags, dest, enable);
        n := n + 1;
      }
      DrawnAllFromBoxes(table, flags, dest, enable, boxes[..]);
    }

    /** FlagsFromDialog: the OR of the bits of the checked boxes. */
    method FlagsFromDialog() returns (flags: DWord)
      requires boxes.Length == |table|
      ensures flags == CheckedFlags(table, boxes[..])
    {
      ghost var shown := boxes[..];
      flags := 0;
      var n := 0;
      while n < |table|
        invariant 0 <= n <= |table|
        invariant flags == CheckedFlags(table[..n], shown[..n])
      {
        CheckedFlagsStep(table, shown, n);
        flags := flags | CheckedBit(table[n], boxes[n]);
        n := n + 1;
      }
      assert table[..n] == table && shown[..n] == shown;
    }

  }

  /**
   * The property sheet: the three pages, the statics g_RegistrySettings,
   * g_KernelSettings and g_ImageSettings, the text of the image-name edit
   * control, and whether PSM_CHANGED has been sent.
   */
  class Sheet {
    /** g_Flags, shared by the three pages. */
    const table: seq<FlagInfo>
    /** g_ValidRegistryFlags, g_ValidKernelFlags, g_ValidImageFlags. */
    const masks: ValidMasks
    const ids: ControlIds
    const registryPage: Page
    const kernelPage: Page
    const imagePage: Page
    var registrySettings: DWord
    var kernelSettings: DWord
    var imageSettings: DWord
    var imageNameText: string
    var changed: bool

    /**
     * The three pages show one well-formed table through three separate sets
     * of boxes, and the masks are the ones UpdateValidFlags computes from it.
     */
    ghost predicate Valid()
    {
      WellFormedTable(table)
      && registryPage.table == table && kernelPage.table == table && imagePage.table == table
      && registryPage.boxes.Length == |table| && kernelPage.boxes.Length == |table| && imagePage.boxes.Length == |table|
      && registryPage.boxes != kernelPage.boxes && registryPage.boxes != imagePage.boxes && kernelPage.boxes != imagePage.boxes
      && masks == ValidMasks(MaskOver(table, DestRegistry), MaskOver(table, DestKernel), MaskOver(table, DestImage))
    }

    constructor (masks: ValidMasks, ids: ControlIds, registryPage: Page, kernelPage: Page, imagePage: Page)
      requires WellFormedTable(registryPage.table)
      requires kernelPage.table == registryPage.table && imagePage.table == registryPage.table
      requires registryPage.boxes.Length == |registryPage.table|
      requires kernelPage.boxes.Length == |registryPage.table|
      requires imagePage.boxes.Length == |registryPage.table|
      requires registryPage.boxes != kernelPage.boxes && registryPage.boxes != imagePage.boxes && kernelPage.boxes != imagePage.boxes
      requires masks == ValidMasks(MaskOver(registryPage.table, DestRegistry), MaskOver(registryPage.table, DestKernel),
                                   MaskOver(registryPage.table, DestImage))
      ensures Valid() && this.masks == masks && this.ids == ids && table == registryPage.table
      ensures this.registryPage == registryPage && this.kernelPage == kernelPage && this.imagePage == imagePage
      ensures registrySettings == 0 && kernelSettings == 0 && imageSettings == 0
      ensures imageNameText == [] && !changed
    {
      table := registryPage.table;
      this.masks, this.ids := masks, ids;
      this.registryPage, this.kernelPage, this.imagePage := registryPage, kernelPage, imagePage;
      registrySettings, kernelSettings, imageSettings := 0, 0, 0;
      imageNameText, changed := [], false;
    }

    /** HandleWMCommand: a click on a checkbox tells the sheet that the page changed. */
    method HandleWMCommand(wParam: nat)
      modifies this`changed
      ensures changed == (old(changed) || IsCheckboxCommand(ids, wParam))
    {
      if ids.check1 <= LowWord(wParam) <= ids.check31 {
        changed := true;
      }
    }

    // System registry page (SystemRegistryProc)

    /** WM_INITDIALOG: read the registry value; a failed read leaves 0. */
    method RegistryInit(debugEnabled: bool, key: KeyOpen)
      modifies this`registrySettings
      ensures var r := ReadGlobalFlagsFromRegistry(debugEnabled, key);
        registrySettings == if r.Success? then r.value else 0
    {
      var r := ReadGlobalFlagsFromRegistry(debugEnabled, key);
      registrySettings := StoreThrough(registrySettings, r);
      if !r.Success? {
        registrySettings := 0;
      }
    }

    /**
     * PSN_APPLY: store the checked flags masked to the registry's valid
     * flags, write them (`written` is what the write returned; a failure
     * shows an error and keeps the stored value), and redraw the page.
     */
    method RegistryApply(written: bool) returns (errorShown: bool)
      requires Valid()
      modifies this`registrySettings, registryPage.boxes
      ensures registrySettings == Applied(table, old(registryPage.boxes[..]), DestRegistry)
      ensures errorShown == !written
      ensures registryPage.boxes[..] == DrawnAll(table, registrySettings, DestRegistry as DWord, true)
      ensures kernelPage.boxes[..] == old(kernelPage.boxes[..]) && imagePage.boxes[..] == old(imagePage.boxes[..])
    {
      var read := registryPage.FlagsFromDialog();
      registrySettings := read & masks.registry;
      errorShown := !written;
      registryPage.UpdateDialogFromFlags(registrySettings, DestRegistry as DWord, true);
    }

    /** PSN_SETACTIVE: draw the page from the stored value. */
    method RegistrySetActive()
      requires Valid()
      modifies registryPage.boxes
      ensures registryPage.boxes[..] == DrawnAll(registryPage.table, registrySettings, DestRegistry as DWord, true)
    {
      registryPage.UpdateDialogFromFlags(registrySettings, DestRegistry as DWord, true);
    }

    // Kernel page (KernelRegistryProc)

    /** WM_INITDIALOG: query the running kernel; a failed query leaves 0. */
    method KernelInit(functionsResolved: bool, q: KernelQuery)
      modifies this`kernelSettings
      ensures var r := ReadGlobalFlagsFromKernel(functionsResolved, q);
        kernelSettings == if r.Success? then r.value else 0
    {
      var r := ReadGlobalFlagsFromKernel(functionsResolved, q);
      kernelSettings := StoreThrough(kernelSettings, r);
      if !r.Success? {
        kernelSettings := 0;
      }
    }

    /** PSN_APPLY: as RegistryApply, with the kernel's valid flags. */
    method KernelApply(written: bool) returns (errorShown: bool)
      requires Valid()
      modifies this`kernelSettings, kernelPage.boxes
      ensures kernelSettings == Applied(table, old(kernelPage.boxes[..]), DestKernel)
      ensures errorShown == !written
      ensures kernelPage.boxes[..] == DrawnAll(table, kernelSettings, DestKernel as DWord, true)
      ensures registryPage.boxes[..] == old(registryPage.boxes[..]) && imagePage.boxes[..] == old(imagePage.boxes[..])
    {
      var read := kernelPage.FlagsFromDialog();
      kernelSettings := read & masks.kernel;
      errorShown := !written;
      kernelPage.UpdateDialogFromFlags(kernelSettings, DestKernel as DWord, true);
    }

    /** PSN_SETACTIVE: draw the page from the stored value. */
    method KernelSetActive()
      requires Valid()
      modifies kernelPage.boxes
      ensures kernelPage.boxes[..] == DrawnAll(kernelPage.table, kernelSettings, DestKernel as DWord, true)
    {
      kernelPage.UpdateDialogFromFlags(kernelSettings, DestKernel as DWord, true);
    }

    // Image file page (ImageFileProc)

    /** WM_INITDIALOG: the image settings start at 0. */
    method ImageInit()
      modifies this`imageSettings
      ensures imageSettings == 0
    {
      imageSettings := 0;
    }

    /** The image name as WM_GETTEXT copies it into a 128-character buffer. */
    function ImageName(): (name: string)
      reads this
      ensures |name| == (if |imageNameText| < 128 then |imageNameText| else 127) && name == imageNameText[..|name|]
    {
      CopyTruncated(imageNameText, 128)
    }

    /**
     * UpdateImagePage: read the named image's flags into g_ImageSettings,
     * ignoring whether the read succeeded (a failed read keeps whatever it
     * wrote, or the previous value), then draw the page from them; the
     * boxes are enabled only when an image name is entered.
     */
    method UpdateImagePage(debugEnabled: bool, key: KeyOpen)
      requires Valid()
      modifies this`imageSettings, imagePage.boxes
      ensures imageSettings == StoreThrough(old(imageSettings), ReadImageGlobalFlagsFromRegistry(ImageName(), debugEnabled, key))
      ensures imagePage.boxes[..] == DrawnAll(imagePage.table, imageSettings, DestImage as DWord, ImageName() != [])
    {
      var name := CopyTruncated(imageNameText, 128);
      imageSettings := StoreThrough(imageSettings, ReadImageGlobalFlagsFromRegistry(name, debugEnabled, key));
      imagePage.UpdateDialogFromFlags(imageSettings, DestImage as DWord, |name| > 0);
    }

    /**
     * StoreImageFlags: store the checked flags masked to the image's valid
     * flags and write them under the entered name (`written` is what the
     * write returned; an empty name is not special-cased).
     */
    method StoreImageFlags(written: bool) returns (errorShown: bool)
      requires Valid()
      modifies this`imageSettings
      ensures imageSettings == Applied(table, imagePage.boxes[..], DestImage)
      ensures errorShown == !written
    {
      var read := imagePage.FlagsFromDialog();
      imageSettings := read & masks.image;
      errorShown := !written;
    }

    /** PSN_APPLY: store and write the flags, then re-read the image and redraw. */
    method ImageApply(written: bool, debugEnabled: bool, key: KeyOpen) returns (errorShown: bool)
      requires Valid()
      modifies this`imageSettings, imagePage.boxes
      ensures var stored := Applied(table, old(imagePage.boxes[..]), DestImage);
        imageSettings == StoreThrough(stored, ReadImageGlobalFlagsFromRegistry(ImageName(), debugEnabled, key))
      ensures errorShown == !written
      ensures imagePage.boxes[..] == DrawnAll(imagePage.table, imageSettings, DestImage as DWord, ImageName() != [])
    {
      errorShown := StoreImageFlags(written);
      UpdateImagePage(debugEnabled, key);
    }

    /** WM_COMMAND: HandleWMCommand, and re-read the image when the name box loses the focus. */
    method ImageCommand(wParam: nat, debugEnabled: bool, key: KeyOpen)
      requires Valid()
      modifies this`changed, this`imageSettings, imagePage.boxes
      ensures changed == (old(changed) || IsCheckboxCommand(ids, wParam))
      ensures if LowWord(wParam) == ids.editImageName && HighWord(wParam) == EnKillFocus then
          imageSettings == StoreThrough(old(imageSettings), ReadImageGlobalFlagsFromRegistry(ImageName(), debugEnabled, key))
          && imagePage.boxes[..] == DrawnAll(imagePage.table, imageSettings, DestImage as DWord, ImageName() != [])
        else imageSettings == old(imageSettings) && imagePage.boxes[..] == old(imagePage.boxes[..])
    {
      HandleWMCommand(wParam);
      if LowWord(wParam) == ids.editImageName && HighWord(wParam) == EnKillFocus {
        UpdateImagePage(debugEnabled, key);
      }
    }

    /** PSN_SETACTIVE: re-read the image and redraw. */
    method ImageSetActive(debugEnabled: bool, key: KeyOpen)
      requires Valid()
      modifies this`imageSettings, imagePage.boxes
      ensures imageSettings == StoreThrough(old(imageSettings), ReadImageGlobalFlagsFromRegistry(ImageName(), debugEnabled, key))
      ensures imagePage.boxes[..] == DrawnAll(imagePage.table, imageSettings, DestImage as DWord, ImageName() != [])
    {
      UpdateImagePage(debugEnabled, key);
    }
  }
}
