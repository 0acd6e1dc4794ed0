/**
 * Flag decoders of the shell-link (.lnk) type plugin.
 *
 * Each list decoder walks a name table (an ordered map from enumerator value
 * to enumerator name, ascending by value) and keeps every enumerator whose bits
 * are all set in the input word.  The tables are the LinkFlags (MS-SHLLINK
 * section 2.1.1), FileAttributesFlags (section 2.1.2) and shell-item flag
 * tables of the plugin; the hot-key decoder follows HotKeyFlags (section 2.1.3).
 * Description strings are not modelled.
 */
module LnkInternal {

  /** A name table as the plugin's std::map iterates it: (value, name) pairs. */
  type NameTable = seq<(bv32, string)>

  // ---------------------------------------------------------------------------
  // GET_PAIR_FROM_ENUM: the name is what follows the last ':' of the
  // qualified enumerator text (the whole text when there is no ':').

  function EnumName(qualified: string): (name: string)
    ensures |name| <= |qualified| && name == qualified[|qualified| - |name|..]
    ensures forall k :: 0 <= k < |name| ==> name[k] != ':'
    ensures |name| < |qualified| ==> qualified[|qualified| - |name| - 1] == ':'
  {
    if |qualified| == 0 || qualified[|qualified| - 1] == ':' then ""
    else EnumName(qualified[..|qualified| - 1]) + [qualified[|qualified| - 1]]
  }

  /** "Scope::Member" names the enumerator "Member". */
  lemma {:induction false} EnumNameOfQualified(scope: string, member: string)
    requires forall k :: 0 <= k < |member| ==> member[k] != ':'
    ensures EnumName(scope + "::" + member) == member
  {
    var q := scope + "::" + member;
    assert q[|q| - |member| - 1] == ':';
    assert q[|q| - |member|..] == member;
  }

  // ---------------------------------------------------------------------------
  // Name tables (lines 38-48, 312-338, 566-570, 606-610, 902-905)

  const FILE_ATTRIBUTE_FLAGS_NAMES: NameTable := [
    (0x00000001, "ReadOnly"),
    (0x00000002, "Hidden"),
    (0x00000004, "System"),
    (0x00000008, "VolumeLabel"),
    (0x00000010, "Directory"),
    (0x00000020, "Archive"),
    (0x00000040, "Device"),
    (0x00000080, "Normal"),
    (0x00000100, "Temporary"),
    (0x00000200, "SparseFile"),
    (0x00000400, "ReparsePoint"),
    (0x00000800, "Compressed"),
    (0x00001000, "Offline"),
    (0x00002000, "NotContentIndexed"),
    (0x00004000, "Encrypted"),
    (0x00008000, "UnknownWindows95FAT"),
    (0x00010000, "Virtual")
  ]

  const LINK_FLAGS_NAMES: NameTable := [
    (0x00000001, "HasTargetIDList"),
    (0x00000002, "HasLinkInfo"),
    (0x00000004, "HasName"),
    (0x00000008, "HasRelativePath"),
    (0x00000010, "HasWorkingDir"),
    (0x00000020, "HasArguments"),
    (0x00000040, "HasIconLocation"),
    (0x00000080, "IsUnicode"),
    (0x00000100, "ForceNoLinkInfo"),
    (0x00000200, "HasExpString"),
    (0x00000400, "RunInSeparateProcess"),
    (0x00000800, "Unknown0"),
    (0x00001000, "HasDarwinID"),
    (0x00002000, "RunAsUser"),
    (0x00004000, "HasExpIcon"),
    (0x00008000, "NoPidlAlias"),
    (0x00010000, "Unknown1"),
    (0x00020000, "RunWithShimLayer"),
    (0x00040000, "ForceNoLinkTrack"),
    (0x00080000, "EnableTargetMetadata"),
    (0x00100000, "DisableLinkPathTracking"),
    (0x00200000, "DisableKnownFolderTracking"),
    (0x00400000, "DisableKnownFolderAlias"),
    (0x00800000, "AllowLinkToLink"),
    (0x01000000, "UnaliasOnSave"),
    (0x02000000, "PreferEnvironmentPath"),
    (0x04000000, "KeepLocalIDListForUNCTarget")
  ]

  const VOLUME_SHELL_ITEM_FLAGS_NAMES: NameTable := [
    (0x01, "HasName"),
    (0x02, "Unknown0"),
    (0x04, "Unknown1"),
    (0x08, "IsRemovableMedia")
  ]

  const FILE_ENTRY_SHELL_ITEM_FLAGS_NAMES: NameTable := [
    (0x01, "IsDirectory"),
    (0x02, "IsFile"),
    (0x04, "HasUnicodeStrings"),
    (0x08, "Unknown0"),
    (0x80, "HasClassIdentifier")
  ]

  const NETWORK_SHARE_FLAGS_NAMES: NameTable := [
    (0x01, "ValidDevice"),
    (0x02, "ValidNetType")
  ]

  // ---------------------------------------------------------------------------
  // Table shape

  /** v is the value of some entry of t. */
  predicate InTable(t: NameTable, v: bv32) {
    exists i :: 0 <= i < |t| && t[i].0 == v
  }

  /** The order in which a std::map keyed by the enumerator iterates. */
  predicate Ascending(t: NameTable) {
    forall i, j :: 0 <= i < j < |t| ==> t[i].0 as int < t[j].0 as int
  }

  predicate StrictlyAscending(s: seq<bv32>) {
    forall i, j :: 0 <= i < j < |s| ==> s[i] as int < s[j] as int
  }

  predicate SingleBit(v: bv32) {
    v != 0 && v & (v - 1) == 0
  }

  /** Every value of t is a single bit (checked from the back, like Selected). */
  predicate SingleBits(t: NameTable) {
    |t| == 0 || (SingleBits(t[..|t| - 1]) && SingleBit(t[|t| - 1].0))
  }

  /** What the decoders rely on: map order and one bit per entry. */
  predicate Decodable(t: NameTable) {
    Ascending(t) && SingleBits(t)
  }

  /** Entry i holds bit i: then the table is in map order with one bit per entry. */
  lemma PowersTable(t: NameTable)
    requires |t| < 32
    requires forall i :: 0 <= i < |t| ==> t[i].0 == 1 << i
    ensures Decodable(t)
  {
    forall i, j | 0 <= i < j < |t| ensures t[i].0 as int < t[j].0 as int {
      ShiftMonotone(i, j);
    }
    PowersSingleBits(t);
  }

  lemma {:induction false} PowersSingleBits(t: NameTable)
    requires |t| < 32
    requires forall i :: 0 <= i < |t| ==> t[i].0 == 1 << i
    ensures SingleBits(t)
  {
    if |t| > 0 {
      var n := |t| - 1;
      PowersSingleBits(t[..n]);
      ShiftIsSingleBit(n);
    }
  }

  lemma {:induction false} ShiftMonotone(i: nat, j: nat)
    requires i < j < 32
    ensures ((1 as bv32) << i) as int < ((1 as bv32) << j) as int
    decreases j
  {
    ShiftStep(j - 1);
    if i < j - 1 {
      ShiftMonotone(i, j - 1);
    } else {
      ShiftPositive(i);
    }
  }

  /** Shifting one place further doubles the value. */
  lemma ShiftStep(k: nat)
    requires k < 31
    ensures ((1 as bv32) << (k + 1)) as int == 2 * ((1 as bv32) << k) as int
  {
    var x := (1 as bv32) << k;
    assert (1 as bv32) << (k + 1) == x + x;
  }

  lemma ShiftPositive(k: nat)
    requires k < 32
    ensures ((1 as bv32) << k) as int > 0
  {
  }

  lemma ShiftIsSingleBit(k: nat)
    requires k < 32
    ensures SingleBit((1 as bv32) << k)
  {
  }

  lemma FileAttributeFlagsArePowers()
    ensures forall i :: 0 <= i < |FILE_ATTRIBUTE_FLAGS_NAMES| ==> FILE_ATTRIBUTE_FLAGS_NAMES[i].0 == 1 << i
  {
  }

  lemma FileAttributeFlagsTable()
    ensures |FILE_ATTRIBUTE_FLAGS_NAMES| == 17 && Decodable(FILE_ATTRIBUTE_FLAGS_NAMES)
  {
    FileAttributeFlagsArePowers();
    PowersTable(FILE_ATTRIBUTE_FLAGS_NAMES);
  }

  lemma LinkFlagsArePowers()
    ensures forall i :: 0 <= i < |LINK_FLAGS_NAMES| ==> LINK_FLAGS_NAMES[i].0 == 1 << i
  {
    forall i | 0 <= i < |LINK_FLAGS_NAMES| ensures LINK_FLAGS_NAMES[i].0 == 1 << i {
      if i < 14 {
        assert LINK_FLAGS_NAMES[i].0 == 1 << i;
      } else {
        assert LINK_FLAGS_NAMES[i].0 == 1 << i;
      }
    }
  }

  lemma LinkFlagsTable()
    ensures |LINK_FLAGS_NAMES| == 27 && Decodable(LINK_FLAGS_NAMES)
  {
    LinkFlagsArePowers();
    PowersTable(LINK_FLAGS_NAMES);
  }

  lemma VolumeShellItemFlagsTable()
    ensures |VOLUME_SHELL_ITEM_FLAGS_NAMES| == 4 && Decodable(VOLUME_SHELL_ITEM_FLAGS_NAMES)
  {
    assert forall i :: 0 <= i < |VOLUME_SHELL_ITEM_FLAGS_NAMES| ==> VOLUME_SHELL_ITEM_FLAGS_NAMES[i].0 == 1 << i;
    PowersTable(VOLUME_SHELL_ITEM_FLAGS_NAMES);
  }

  /** Bits 0-3 and bit 7: not a run of low bits, so checked entry by entry. */
  lemma FileEntryShellItemFlagsTable()
    ensures |FILE_ENTRY_SHELL_ITEM_FLAGS_NAMES| == 5 && Decodable(FILE_ENTRY_SHELL_ITEM_FLAGS_NAMES)
  {
    var t := FILE_ENTRY_SHELL_ITEM_FLAGS_NAMES;
    assert forall i :: 0 <= i < 4 ==> t[i].0 == 1 << i;
    PowersTable(t[..4]);
    forall i | 0 <= i < 4 ensures t[i].0 as int < t[4].0 as int {
      assert t[..4][i] == t[i];
    }
  }

  lemma NetworkShareFlagsTable()
    ensures |NETWORK_SHARE_FLAGS_NAMES| == 2 && Decodable(NETWORK_SHARE_FLAGS_NAMES)
  {
    assert forall i :: 0 <= i < |NETWORK_SHARE_FLAGS_NAMES| ==> NETWORK_SHARE_FLAGS_NAMES[i].0 == 1 << i;
    PowersTable(NETWORK_SHARE_FLAGS_NAMES);
  }

  // ---------------------------------------------------------------------------
  // The list decoders (lines 79-93, 406-420, 572-586, 612-626, 912-926)

  /** All bits of v are set in flags: the test (v & flags) == v of the decoders. */
  predicate Hit(v: bv32, flags: bv32) {
    v & flags == v
  }

  /** The values of t whose bits are all set in flags, in table order. */
  function Selected(t: NameTable, flags: bv32): (r: seq<bv32>)
    ensures |r| <= |t|
  {
    if |t| == 0 then []
    else
      var v := t[|t| - 1].0;
      Selected(t[..|t| - 1], flags) + (if Hit(v, flags) then [v] else [])
  }

  /** A value is selected exactly when it is in the table and all its bits are set. */
  lemma {:induction false} SelectedMembers(t: NameTable, flags: bv32)
    ensures forall v :: v in Selected(t, flags) <==> InTable(t, v) && Hit(v, flags)
  {
    if |t| > 0 {
      var n := |t| - 1;
      SelectedMembers(t[..n], flags);
      forall v | InTable(t, v) && v != t[n].0 ensures InTable(t[..n], v) {
        var i :| 0 <= i < |t| && t[i].0 == v;
        assert t[..n][i] == t[i];
      }
      forall v | InTable(t[..n], v) ensures InTable(t, v) {
        var i :| 0 <= i < n && t[..n][i].0 == v;
        assert t[i] == t[..n][i];
      }
    }
  }

  /** Selection keeps table order, so a table in map order gives an ascending list. */
  lemma {:induction false} SelectedAscending(t: NameTable, flags: bv32)
    requires Ascending(t)
    ensures StrictlyAscending(Selected(t, flags))
  {
    if |t| > 0 {
      var n := |t| - 1;
      var p := t[..n];
      forall i, j | 0 <= i < j < |p| ensures p[i].0 as int < p[j].0 as int {
        assert p[i] == t[i] && p[j] == t[j];
      }
      SelectedAscending(p, flags);
      SelectedMembers(p, flags);
      var prefix := Selected(p, flags);
      forall k | 0 <= k < |prefix| ensures prefix[k] as int < t[n].0 as int {
        assert prefix[k] in prefix;
        var m :| 0 <= m < n && p[m].0 == prefix[k];
        assert p[m] == t[m];
      }
      assert t[..n + 1] == t;
      SelectedStep(t, n, flags);
    }
  }

  /** An all-zero word selects nothing, since no table entry is zero. */
  lemma {:induction false} SelectedNothing(t: NameTable)
    requires SingleBits(t)
    ensures Selected(t, 0) == []
  {
    if |t| > 0 {
      SelectedNothing(t[..|t| - 1]);
    }
  }

  /** One more table entry: the selection of t[..i + 1] extends that of t[..i]. */
  lemma SelectedStep(t: NameTable, i: nat, flags: bv32)
    requires i < |t|
    ensures Selected(t[..i + 1], flags) == Selected(t[..i], flags) + (if Hit(t[i].0, flags) then [t[i].0] else [])
  {
    assert t[..i + 1][..i] == t[..i];
  }

  /** What the decoders promise about the selection of a table in map order. */
  lemma SelectedList(t: NameTable, flags: bv32)
    requires Decodable(t)
    ensures forall v :: v in Selected(t, flags) <==> InTable(t, v) && Hit(v, flags)
    ensures StrictlyAscending(Selected(t, flags))
    ensures flags == 0 ==> Selected(t, flags) == []
  {
    SelectedMembers(t, flags);
    SelectedAscending(t, flags);
    if flags == 0 {
      SelectedNothing(t);
    }
  }

  /**
   * Bit by bit: the word with only bit k set is decoded exactly when the table
   * names it and bit k of flags is set, so the output splits flags into the
   * table's single bits and bits the table does not name are dropped.
   */
  lemma SelectedBits(t: NameTable, flags: bv32, k: nat)
    requires k < 32
    ensures ((1 as bv32) << k) in Selected(t, flags) <==> InTable(t, (1 as bv32) << k) && flags & ((1 as bv32) << k) != 0
  {
    SelectedMembers(t, flags);
    ShiftHit(k, flags);
  }

  lemma ShiftHit(k: nat, flags: bv32)
    requires k < 32
    ensures Hit((1 as bv32) << k, flags) <==> flags & ((1 as bv32) << k) != 0
  {
  }

  /**
   * The loop every list decoder runs: iterate the table in order and append
   * each enumerator whose bits are all set in flags.
   */
  method DecodeFlags(t: NameTable, flags: bv32) returns (output: seq<bv32>)
    requires Decodable(t)
    ensures output == Selected(t, flags)
    ensures forall v :: v in output <==> InTable(t, v) && Hit(v, flags)
    ensures StrictlyAscending(output)
    ensures |output| <= |t|
    ensures flags == 0 ==> output == []
  {
    output := [];
    for i := 0 to |t|
      invariant output == Selected(t[..i], flags)
    {
      var flag := t[i].0 & flags;
      SelectedStep(t, i, flags);
      if flag == t[i].0 {
        output := output + [flag];
      }
    }
    assert t[..|t|] == t;
    SelectedList(t, flags);
  }

  method GetFileAttributeFlags(flags: bv32) returns (output: seq<bv32>)
    ensures output == Selected(FILE_ATTRIBUTE_FLAGS_NAMES, flags)
    ensures forall v :: v in output <==> InTable(FILE_ATTRIBUTE_FLAGS_NAMES, v) && Hit(v, flags)
    ensures StrictlyAscending(output)
    ensures |output| <= 17
    ensures flags == 0 ==> output == []
  {
    FileAttributeFlagsTable();
    output := DecodeFlags(FILE_ATTRIBUTE_FLAGS_NAMES, flags);
  }

  method GetLinkFlags(flags: bv32) returns (output: seq<bv32>)
    ensures output == Selected(LINK_FLAGS_NAMES, flags)
    ensures forall v :: v in output <==> InTable(LINK_FLAGS_NAMES, v) && Hit(v, flags)
    ensures StrictlyAscending(output)
    ensures |output| <= 27
    ensures flags == 0 ==> output == []
  {
    LinkFlagsTable();
    output := DecodeFlags(LINK_FLAGS_NAMES, flags);
  }

  /** The flags byte is widened; every value of the table fits in 8 bits. */
  method GetVolumeShellItemFlags(flags: bv8) returns (output: seq<bv32>)
    ensures output == Selected(VOLUME_SHELL_ITEM_FLAGS_NAMES, flags as bv32)
    ensures forall v :: v in output <==> InTable(VOLUME_SHELL_ITEM_FLAGS_NAMES, v) && Hit(v, flags as bv32)
    ensures StrictlyAscending(output)
    ensures |output| <= 4
    ensures flags == 0 ==> output == []
  {
    VolumeShellItemFlagsTable();
    output := DecodeFlags(VOLUME_SHELL_ITEM_FLAGS_NAMES, flags as bv32);
  }

  method GetFileEntryShellItemFlags(flags: bv8) returns (output: seq<bv32>)
    ensures output == Selected(FILE_ENTRY_SHELL_ITEM_FLAGS_NAMES, flags as bv32)
    ensures forall v :: v in output <==> InTable(FILE_ENTRY_SHELL_ITEM_FLAGS_NAMES, v) && Hit(v, flags as bv32)
    ensures StrictlyAscending(output)
    ensures |output| <= 5
    ensures flags == 0 ==> output == []
  {
    FileEntryShellItemFlagsTable();
    output := DecodeFlags(FILE_ENTRY_SHELL_ITEM_FLAGS_NAMES, flags as bv32);
  }

  method GetNetworkShareFlags(flags: bv32) returns (output: seq<bv32>)
    ensures output == Selected(NETWORK_SHARE_FLAGS_NAMES, flags)
    ensures forall v :: v in output <==> InTable(NETWORK_SHARE_FLAGS_NAMES, v) && Hit(v, flags)
    ensures StrictlyAscending(output)
    ensures |output| <= 2
    ensures flags == 0 ==> output == []
  {
    NetworkShareFlagsTable();
    output := DecodeFlags(NETWORK_SHARE_FLAGS_NAMES, flags);
  }

  // ---------------------------------------------------------------------------
  // Hot-key modifiers (lines 142-182)

  /** HotKeyHighNames.at(t) for the four HotKeyHigh enumerators. */
  function HotKeyHighName(t: bv8): string
    requires t == 0x00 || t == 0x01 || t == 0x02 || t == 0x04
  {
    if t == 0x00 then "NONE"
    else if t == 0x01 then "SHIFT"
    else if t == 0x02 then "CONTROL"
    else "ALT"
  }

  /** The order in which GetHotKeyHighFromFlags tries the modifiers. */
  const HOT_KEY_HIGH_TYPES: seq<bv8> := [0x00, 0x01, 0x02, 0x04]

  /**
   * The text the decoder produces: NONE (its value 0 passes the bit test for
   * every input) followed by each set modifier of bits 0x01, 0x02, 0x04.
   */
  function HotKeyHighText(flags: bv8): (text: string)
    ensures |text| >= 4 && text[..4] == "NONE"
  {
    "NONE"
    + (if flags & 0x01 != 0 then " | SHIFT" else "")
    + (if flags & 0x02 != 0 then " | CONTROL" else "")
    + (if flags & 0x04 != 0 then " | ALT" else "")
  }

  /** The text after the first i modifier types have been tried (the loop of lines 159-174). */
  function HotKeyHighPrefix(flags: bv8, i: nat): string
    requires i <= |HOT_KEY_HIGH_TYPES|
  {
    if i == 0 then ""
    else
      var text := HotKeyHighPrefix(flags, i - 1);
      var t := HOT_KEY_HIGH_TYPES[i - 1];
      if flags & t != t then text
      else if text == "" then HotKeyHighName(t)
      else text + " | " + HotKeyHighName(t)
  }

  /** Trying all four types yields the closed form; in particular the text is never empty. */
  lemma HotKeyHighComplete(flags: bv8)
    ensures HotKeyHighPrefix(flags, 4) == HotKeyHighText(flags)
  {
    assert HOT_KEY_HIGH_TYPES[0] == 0 && flags & 0 == 0;
    assert HotKeyHighPrefix(flags, 1) == "NONE";
    HotKeyHighStep(flags, 1);
    HotKeyHighStep(flags, 2);
    HotKeyHighStep(flags, 3);
    ModifierTexts(flags);
  }

  /** What a modifier type t adds once the text has started. */
  function ModifierText(flags: bv8, t: bv8): string
    requires t == 0x00 || t == 0x01 || t == 0x02 || t == 0x04
  {
    if flags & t == t then " | " + HotKeyHighName(t) else ""
  }

  lemma ModifierTexts(flags: bv8)
    ensures ModifierText(flags, 0x01) == if flags & 0x01 != 0 then " | SHIFT" else ""
    ensures ModifierText(flags, 0x02) == if flags & 0x02 != 0 then " | CONTROL" else ""
    ensures ModifierText(flags, 0x04) == if flags & 0x04 != 0 then " | ALT" else ""
  {
  }

  /** Once the text has started, each further type appends its modifier text. */
  lemma HotKeyHighStep(flags: bv8, i: nat)
    requires 1 <= i < |HOT_KEY_HIGH_TYPES| && HotKeyHighPrefix(flags, i) != ""
    ensures HotKeyHighPrefix(flags, i + 1) == HotKeyHighPrefix(flags, i) + ModifierText(flags, HOT_KEY_HIGH_TYPES[i])
  {
  }

  method GetHotKeyHighFromFlags(flags: bv8) returns (high: string)
    ensures high == HotKeyHighText(flags)
    ensures |high| >= 4 && high[..4] == "NONE"
  {
    high := "";
    for i := 0 to |HOT_KEY_HIGH_TYPES|
      invariant high == HotKeyHighPrefix(flags, i)
    {
      var t := HOT_KEY_HIGH_TYPES[i];
      if flags & t == t {
        if high == "" {
          high := high + HotKeyHighName(t);
        } else {
          high := high + " | " + HotKeyHighName(t);
        }
      }
    }
    HotKeyHighComplete(flags);
    // Unreachable: NONE was appended on the first iteration.
    if high == "" {
      high := "NONE";
    }
  }

  /** Other bits than 0x01, 0x02 and 0x04 never change the text. */
  lemma HotKeyHighIgnoresOtherBits(flags: bv8)
    ensures HotKeyHighText(flags) == HotKeyHighText(flags & 0x07)
  {
  }
}
